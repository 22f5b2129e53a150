/** `parseResponse` of index.tsx: the raw text the language model returns is
    cleaned of Markdown code fences, split on the post divider, filtered to
    the pieces long enough to be posts, and each piece becomes a post whose
    four fields are cut out between `$$$NAME$$$` tags, with fixed defaults
    for the fields that come out empty. */
module PostParser {
  import opened JsString

  /** One generated article, as the interface `GeneratedPost` declares it. */
  datatype GeneratedPost = GeneratedPost(title: string, angle: string, imageKeyword: string, content: string)

  const Fence: string := "```"
  const PostDivider: string := "---POST_DIVIDER---"
  /** A piece survives the filter when its trimmed length exceeds this. */
  const MinChunkLength: nat := 20
  const DefaultTitle: string := "爆款深度内容"
  const DefaultAngle: string := "实时观察"
  const DefaultImageKeyword: string := "news"

  ghost predicate FenceFree(s: string) {
    forall i :: !Occurs(s, Fence, i)
  }

  // ---------------------------------------------------------------------
  // Step 1: fence stripping, `text.replace(/```[a-z]*\n?/gi, '').replace(/```/g, '')`
  // ---------------------------------------------------------------------

  /** What follows a fence once the rest of a match of ```` ```[a-z]*\n? ````
      is gone: the letters `[a-z]*` (either case) and then one line feed, if any. */
  function AfterOpener(u: string): (r: string)
    ensures |r| <= |u|
  {
    var afterWord := DropWhile(u, AsciiLetter);
    if afterWord != [] && afterWord[0] == '\n' then afterWord[1..] else afterWord
  }

  /** The global replacement of ```` ```[a-z]*\n? ```` by nothing: scanning left
      to right, each fence is removed together with the letters that follow
      it and at most one line feed after them. */
  function StripFenceOpeners(s: string): (r: string)
    ensures |r| <= |s|
    decreases |s|
  {
    if |s| >= 3 && s[..3] == Fence then StripFenceOpeners(AfterOpener(s[3..]))
    else if s == [] then []
    else [s[0]] + StripFenceOpeners(s[1..])
  }

  /** The global replacement of ```` ``` ```` by nothing. */
  function StripFences(s: string): (r: string)
    ensures |r| <= |s|
    decreases |s|
  {
    if |s| >= 3 && s[..3] == Fence then StripFences(s[3..])
    else if s == [] then []
    else [s[0]] + StripFences(s[1..])
  }

  /** The cleaned text `clean`. */
  function Clean(text: string): (r: string)
    ensures |r| <= |text|
  {
    StripFences(StripFenceOpeners(text))
  }

  /** A backtick (or two) at the front of the output was already at the front of the input. */
  lemma {:induction false} StripFencesPrefix(s: string)
    ensures |StripFences(s)| >= 1 && StripFences(s)[0] == '`' ==> |s| >= 1 && s[0] == '`'
    ensures |StripFences(s)| >= 2 && StripFences(s)[0] == '`' && StripFences(s)[1] == '`'
            ==> |s| >= 2 && s[0] == '`' && s[1] == '`'
    decreases |s|
  {
    if |s| >= 3 && s[..3] == Fence {
      assert s[0] == '`' && s[1] == '`';
    } else if s != [] {
      StripFencesPrefix(s[1..]);
    }
  }

  lemma {:induction false} StripFenceOpenersPrefix(s: string)
    ensures |StripFenceOpeners(s)| >= 1 && StripFenceOpeners(s)[0] == '`' ==> |s| >= 1 && s[0] == '`'
    ensures |StripFenceOpeners(s)| >= 2 && StripFenceOpeners(s)[0] == '`' && StripFenceOpeners(s)[1] == '`'
            ==> |s| >= 2 && s[0] == '`' && s[1] == '`'
    decreases |s|
  {
    if |s| >= 3 && s[..3] == Fence {
      assert s[0] == '`' && s[1] == '`';
    } else if s != [] {
      StripFenceOpenersPrefix(s[1..]);
    }
  }

  /** Prepending a character that does not start a fence in `[c] + t` keeps a fence-free string fence-free. */
  lemma ConsFenceFree(c: char, t: string)
    requires FenceFree(t)
    requires !(c == '`' && |t| >= 2 && t[0] == '`' && t[1] == '`')
    ensures FenceFree([c] + t)
  {
    var r := [c] + t;
    forall i ensures !Occurs(r, Fence, i) {
      if i >= 1 && i + 3 <= |r| {
        assert r[i..i + 3] == t[i - 1..i + 2];
        assert !Occurs(t, Fence, i - 1);
      } else if i == 0 && |r| >= 3 {
        assert r[..3] == [c, t[0], t[1]];
      }
    }
  }

  /** The second replacement leaves no fence behind: removing fences left to
      right cannot join the neighbours of a removed fence into a new one. */
  lemma {:induction false} StripFencesFenceFree(s: string)
    ensures FenceFree(StripFences(s))
    decreases |s|
  {
    if |s| >= 3 && s[..3] == Fence {
      StripFencesFenceFree(s[3..]);
    } else if s != [] {
      StripFencesFenceFree(s[1..]);
      StripFencesPrefix(s[1..]);
      assert |s| >= 3 ==> s[..3] == [s[0], s[1], s[2]];
      ConsFenceFree(s[0], StripFences(s[1..]));
    }
  }

  /** The first replacement alone already leaves no fence behind, so the
      second one never changes the text. */
  lemma {:induction false} StripFenceOpenersFenceFree(s: string)
    ensures FenceFree(StripFenceOpeners(s))
    decreases |s|
  {
    if |s| >= 3 && s[..3] == Fence {
      StripFenceOpenersFenceFree(AfterOpener(s[3..]));
    } else if s != [] {
      StripFenceOpenersFenceFree(s[1..]);
      StripFenceOpenersPrefix(s[1..]);
      assert |s| >= 3 ==> s[..3] == [s[0], s[1], s[2]];
      ConsFenceFree(s[0], StripFenceOpeners(s[1..]));
    }
  }

  /** Both replacements leave a fence-free text unchanged. */
  lemma {:induction false} FenceFreeUnchanged(s: string)
    requires FenceFree(s)
    ensures StripFenceOpeners(s) == s && StripFences(s) == s
    decreases |s|
  {
    if s != [] {
      assert !Occurs(s, Fence, 0);
      forall i ensures !Occurs(s[1..], Fence, i) {
        if 0 <= i && i + 3 <= |s| - 1 {
          assert s[1..][i..i + 3] == s[i + 1..i + 4];
          assert !Occurs(s, Fence, i + 1);
        }
      }
      FenceFreeUnchanged(s[1..]);
    }
  }

  /** The cleaned text holds no triple backtick; cleaning is idempotent, and
      it changes a text exactly when the text holds a fence. */
  lemma CleanFenceFree(text: string)
    ensures FenceFree(Clean(text))
    ensures StripFences(StripFenceOpeners(text)) == StripFenceOpeners(text)
    ensures Clean(Clean(text)) == Clean(text)
    ensures Clean(text) == text <==> FenceFree(text)
  {
    StripFenceOpenersFenceFree(text);
    FenceFreeUnchanged(StripFenceOpeners(text));
    FenceFreeUnchanged(Clean(text));
    if FenceFree(text) {
      FenceFreeUnchanged(text);
    }
  }

  /** Where no fence starts, the first replacement keeps the first character. */
  lemma OpenersStep(c: char, x: string)
    requires !Occurs([c] + x, Fence, 0)
    ensures StripFenceOpeners([c] + x) == [c] + StripFenceOpeners(x)
  {
    assert ([c] + x)[1..] == x;
  }

  /** Putting a character in front of a concatenation. */
  lemma ConsAppend(c: char, u: string, v: string)
    ensures [c] + (u + v) == ([c] + u) + v
  {
  }

  /** No fence starting before `|a|` in `a + b` means none starting before
      `|a| - 1` once the first character is gone. */
  lemma NoFenceAfterFirst(a: string, b: string)
    requires a != [] && forall j :: 0 <= j < |a| ==> !Occurs(a + b, Fence, j)
    ensures forall j :: 0 <= j < |a| - 1 ==> !Occurs(a[1..] + b, Fence, j)
  {
    var s, s' := a + b, a[1..] + b;
    forall j | 0 <= j < |a| - 1 ensures !Occurs(s', Fence, j) {
      assert !Occurs(s, Fence, j + 1);
      if j + 3 <= |s'| {
        assert s'[j..j + 3] == s[j + 1..j + 4];
      }
    }
  }

  /** Text in front of the first fence passes through the first replacement
      untouched. */
  lemma {:induction false} KeepPrefix(a: string, b: string)
    requires forall j :: 0 <= j < |a| ==> !Occurs(a + b, Fence, j)
    ensures StripFenceOpeners(a + b) == a + StripFenceOpeners(b)
    decreases |a|
  {
    if a == [] {
      assert a + b == b;
    } else {
      var x := a[1..] + b;
      assert a + b == [a[0]] + x;
      OpenersStep(a[0], x);
      NoFenceAfterFirst(a, b);
      KeepPrefix(a[1..], b);
      ConsAppend(a[0], a[1..], StripFenceOpeners(b));
      assert [a[0]] + a[1..] == a;
    }
  }

  /** An opening fence, a language name of letters and a line feed are
      removed together. */
  lemma OpenerDropped(w: string, x: string)
    requires forall i :: 0 <= i < |w| ==> IsAsciiLetter(w[i])
    ensures StripFenceOpeners(Fence + w + "\n" + x) == StripFenceOpeners(x)
  {
    var s := Fence + w + "\n" + x;
    assert s[..3] == Fence;
    var u := s[3..];
    assert u == w + "\n" + x;
    forall j | 0 <= j < |w| ensures InClass(u[j], AsciiLetter) {
      assert u[j] == w[j];
    }
    assert u[|w|] == '\n';
    RunEndAt(u, 0, |w|, AsciiLetter);
    assert DropWhile(u, AsciiLetter) == "\n" + x;
    assert AfterOpener(u) == x;
  }

  /** A fence followed by at most two backticks leaves just those backticks. */
  lemma FenceThenShort(x: string)
    requires |x| <= 2 && forall i :: 0 <= i < |x| ==> x[i] == '`'
    ensures StripFenceOpeners(Fence + x) == x
  {
    var s := Fence + x;
    assert s[..3] == Fence;
    assert s[3..] == x;
    RunEndAt(x, 0, 0, AsciiLetter);
    assert AfterOpener(x) == x;
    assert FenceFree(x);
    FenceFreeUnchanged(x);
  }

  /** Zero, one or two backticks followed by a fence come out as the
      backticks: the fence found first starts at the first backtick. */
  lemma BackticksThenFence(t: string)
    requires |t| <= 2 && forall i :: 0 <= i < |t| ==> t[i] == '`'
    ensures StripFenceOpeners(t + Fence) == t
  {
    assert t + Fence == Fence + t by {
      assert forall i :: 0 <= i < 3 ==> Fence[i] == '`';
    }
    FenceThenShort(t);
  }

  /** In a fence-free `r` whose first `n` characters end in something other
      than a backtick, with at most two characters after them, no fence of
      `r + Fence` starts among those `n`. */
  lemma NoFenceInFront(r: string, n: nat)
    requires FenceFree(r) && n <= |r| <= n + 2
    requires n >= 1 ==> r[n - 1] != '`'
    ensures forall j :: 0 <= j < n ==> !Occurs(r + Fence, Fence, j)
  {
    var s := r + Fence;
    forall j | 0 <= j < n ensures !Occurs(s, Fence, j) {
      if j + 3 <= |r| {
        assert s[j..j + 3] == r[j..j + 3];
        assert !Occurs(r, Fence, j);
      } else {
        assert s[j..j + 3][n - 1 - j] == s[n - 1] == r[n - 1];
      }
    }
  }

  /** A fence-free text ends in at most two backticks, with something else
      (or nothing) before them. */
  lemma TrailingBackticks(r: string) returns (n: nat)
    requires FenceFree(r)
    ensures n <= |r| <= n + 2
    ensures n >= 1 ==> r[n - 1] != '`'
    ensures forall i :: n <= i < |r| ==> r[i] == '`'
  {
    if |r| >= 2 && r[|r| - 1] == '`' && r[|r| - 2] == '`' {
      n := |r| - 2;
      if n >= 1 {
        assert !Occurs(r, Fence, n - 1);
        assert r[n - 1..n + 2] == [r[n - 1], r[n], r[n + 1]];
      }
    } else if |r| >= 1 && r[|r| - 1] == '`' {
      n := |r| - 1;
    } else {
      n := |r|;
    }
  }

  /** A fence-free text followed by a closing fence comes out of the first
      replacement as itself. */
  lemma CloserDropped(r: string)
    requires FenceFree(r)
    ensures StripFenceOpeners(r + Fence) == r
  {
    var n := TrailingBackticks(r);
    NoFenceInFront(r, n);
    var a, tail := r[..n], r[n..];
    assert a + (tail + Fence) == r + Fence;
    KeepPrefix(a, tail + Fence);
    assert forall i :: 0 <= i < |tail| ==> tail[i] == r[n + i];
    BackticksThenFence(tail);
    assert a + tail == r;
  }

  /** A reply wrapped in a code fence (an opening fence with an optional
      language name of letters and a line feed, then the reply, then a
      closing fence) cleans to the reply itself, when the reply holds no fence. */
  lemma CleanUnwrapsFence(w: string, r: string)
    requires forall i :: 0 <= i < |w| ==> IsAsciiLetter(w[i])
    requires FenceFree(r)
    ensures Clean(Fence + w + "\n" + r + Fence) == r
  {
    assert Fence + w + "\n" + r + Fence == Fence + w + "\n" + (r + Fence);
    OpenerDropped(w, r + Fence);
    CloserDropped(r);
    FenceFreeUnchanged(r);
  }

  // ---------------------------------------------------------------------
  // Step 3: field extraction, the nested `extractField`
  // ---------------------------------------------------------------------

  /** The tag opening a field, `$$$${tagName}$$$`. */
  function StartTag(tagName: string): string {
    "$$$" + tagName + "$$$"
  }

  /** `$$$` at index `j` of `s`. */
  predicate DollarsAt(s: string, j: int) {
    0 <= j && j + 3 <= |s| && s[j] == '$' && s[j + 1] == '$' && s[j + 2] == '$'
  }

  /** The regular expression `/\$\$\$\w+\$\$\$/` matches `s` at index `j`
      with `\w+` taking `k` characters: `$$$`, `k` word characters, `$$$`. */
  ghost predicate TagOfLengthAt(s: string, j: int, k: int) {
    0 < k && DollarsAt(s, j) && DollarsAt(s, j + 3 + k)
    && forall i {:trigger InClass(s[i], Word)} :: j + 3 <= i < j + 3 + k ==> InClass(s[i], Word)
  }

  /** The regular expression matches at `j`. Since `$` is not a word
      character, `\w+` can only end where the run of word characters ends. */
  predicate TagAt(s: string, j: int) {
    DollarsAt(s, j) && var e := RunEnd(s, j + 3, Word); j + 3 < e && DollarsAt(s, e)
  }

  /** A tag found by `TagAt` is a match of the regular expression. */
  lemma TagAtWitness(s: string, j: int) returns (k: int)
    requires TagAt(s, j)
    ensures TagOfLengthAt(s, j, k)
  {
    k := RunEnd(s, j + 3, Word) - (j + 3);
    RunEndAll(s, j + 3, Word);
    forall i | j + 3 <= i < j + 3 + k ensures IsWordChar(s[i]) {
      assert InClass(s[i], Word);
    }
  }

  /** Every match of the regular expression is found by `TagAt`. */
  lemma MatchIsTagAt(s: string, j: int, k: int)
    requires TagOfLengthAt(s, j, k)
    ensures TagAt(s, j)
  {
    RunEndAll(s, j + 3, Word);
    assert !InClass(s[j + 3 + k], Word);
  }

  /** No tag matches anywhere in `s`. */
  ghost predicate TagFree(s: string) {
    forall j, k :: !TagOfLengthAt(s, j, k)
  }

  /** `TagAt` is exactly "the regular expression matches here". */
  lemma TagAtIsMatch(s: string, j: int)
    ensures TagAt(s, j) <==> exists k :: TagOfLengthAt(s, j, k)
  {
    if TagAt(s, j) {
      var k := TagAtWitness(s, j);
    }
    if k :| TagOfLengthAt(s, j, k) {
      MatchIsTagAt(s, j, k);
    }
  }

  /** A start tag built from a non-empty name of word characters is itself a
      match of `/\$\$\$\w+\$\$\$/`, so it ends the text of the field before it. */
  lemma StartTagIsTag(tagName: string)
    requires tagName != [] && forall i :: 0 <= i < |tagName| ==> IsWordChar(tagName[i])
    ensures TagAt(StartTag(tagName), 0)
  {
    var t := StartTag(tagName);
    forall i | 3 <= i < 3 + |tagName| ensures InClass(t[i], Word) {
      assert t[i] == tagName[i - 3];
    }
    MatchIsTagAt(t, 0, |tagName|);
  }

  /** The leftmost index at or after `from` where some tag matches. */
  function FirstTagFrom(s: string, from: nat): (r: Option<nat>)
    ensures r.Some? ==> from <= r.value && TagAt(s, r.value)
    ensures r.Some? ==> forall j :: from <= j < r.value ==> !TagAt(s, j)
    ensures r.None? ==> forall j :: from <= j ==> !TagAt(s, j)
    decreases |s| - from
  {
    if from + 6 > |s| then None
    else if TagAt(s, from) then Some(from)
    else FirstTagFrom(s, from + 1)
  }

  /** `s.match(/\$\$\$\w+\$\$\$/)`: the index of the first match, if any. */
  function FirstTag(s: string): (r: Option<nat>)
    ensures r.Some? ==> TagAt(s, r.value) && forall j :: 0 <= j < r.value ==> !TagAt(s, j)
    ensures r.None? ==> forall j :: !TagAt(s, j)
  {
    FirstTagFrom(s, 0)
  }

  /** A match inside a slice is a match in the whole string, at the shifted index. */
  lemma MatchInSlice(s: string, a: nat, b: nat, j: int, k: int)
    requires a <= b <= |s| && TagOfLengthAt(s[a..b], j, k)
    ensures TagOfLengthAt(s, a + j, k)
  {
    var t := s[a..b];
    forall i | a + j + 3 <= i < a + j + 3 + k ensures InClass(s[i], Word) {
      assert s[i] == t[i - a];
      assert InClass(t[i - a], Word);
    }
  }

  /** A tag matching inside a slice also matches the whole string, at the shifted index. */
  lemma TagAtInSlice(s: string, a: nat, b: nat, j: int)
    requires a <= b <= |s| && TagAt(s[a..b], j)
    ensures TagAt(s, a + j)
  {
    var k := TagAtWitness(s[a..b], j);
    MatchInSlice(s, a, b, j, k);
    MatchIsTagAt(s, a + j, k);
  }

  /** A tag matching in `s` at or after `a` matches at the same place in `s[a..]`. */
  lemma TagAtInSuffix(s: string, a: nat, j: int)
    requires a <= |s| && 0 <= j && TagAt(s, a + j)
    ensures TagAt(s[a..], j)
  {
    var k := TagAtWitness(s, a + j);
    var t := s[a..];
    forall i | j + 3 <= i < j + 3 + k ensures InClass(t[i], Word) {
      assert t[i] == s[a + i];
      assert InClass(s[a + i], Word);
    }
    assert TagOfLengthAt(t, j, k);
    MatchIsTagAt(t, j, k);
  }

  /** Where the field's text ends within `rest`, the text after the field's
      tag: at the first tag that matches in it, or at its end. */
  function Cut(rest: string): (n: nat)
    ensures n <= |rest|
    ensures forall j :: 0 <= j < n ==> !TagAt(rest, j)
    ensures n < |rest| ==> TagAt(rest, n)
  {
    match FirstTag(rest)
    case Some(p) => p
    case None => |rest|
  }

  /** `.replace(/^[\s:：]+/, '').trim()`. */
  function Tidy(v: string): (r: string)
    ensures |r| <= |v|
  {
    Trim(DropWhile(v, LeadStrip))
  }

  /** What is left of `v` once its leading run of white space and colons and
      its trailing white space are cut off. */
  lemma TidyShape(v: string) returns (o: nat)
    ensures o + |Tidy(v)| <= |v| && v[o..o + |Tidy(v)|] == Tidy(v)
    ensures forall i :: 0 <= i < o ==> IsLeadChar(v[i])
    ensures forall i :: o + |Tidy(v)| <= i < |v| ==> IsSpace(v[i])
    ensures Tidy(v) != [] ==> !IsLeadChar(Tidy(v)[0]) && !IsSpace(Tidy(v)[|Tidy(v)| - 1])
  {
    var stripped := DropWhile(v, LeadStrip);
    DropWhileShape(v, LeadStrip);
    var d := |v| - |stripped|;
    var a := TrimShape(stripped);
    var r := Trim(stripped);
    assert stripped != [] ==> !IsSpace(stripped[0]);
    o := d;
    forall i | 0 <= i < o ensures IsLeadChar(v[i]) {
      assert InClass(v[i], LeadStrip);
    }
    assert v[o..o + |r|] == stripped[..|r|];
    forall i | o + |r| <= i < |v| ensures IsSpace(v[i]) {
      assert v[i] == stripped[i - o];
    }
  }


  /** The tidied value is the only piece of `v` that has a run of white
      space and colons before it, only white space after it, and neither
      kind of character at its ends. */
  lemma TidyUnique(v: string, o: nat, r: string)
    requires o + |r| <= |v| && v[o..o + |r|] == r
    requires forall i :: 0 <= i < o ==> IsLeadChar(v[i])
    requires forall i :: o + |r| <= i < |v| ==> IsSpace(v[i])
    requires r != [] ==> !IsLeadChar(r[0]) && !IsSpace(r[|r| - 1])
    ensures Tidy(v) == r
  {
    var t := Tidy(v);
    var lead := TidyShape(v);
    assert t != [] ==> v[lead] == t[0] && v[lead + |t| - 1] == t[|t| - 1];
    assert r != [] ==> v[o] == r[0] && v[o + |r| - 1] == r[|r| - 1];
  }


  /** `extractField` with the start tag already built: the text after the
      first occurrence of `startTag` up to the next tag or the end of the
      chunk, tidied; the empty string when `startTag` does not occur. */
  function FieldAfter(chunk: string, startTag: string): (r: string)
    ensures !Contains(chunk, startTag) ==> r == []
  {
    match IndexOf(chunk, startTag)
    case None => []
    case Some(startIndex) =>
      var contentStart := startIndex + |startTag|;
      var endIndex := contentStart + Cut(chunk[contentStart..]);
      Tidy(chunk[contentStart..endIndex])
  }

  /** `extractField(tagName)` on `chunk`. */
  function ExtractField(chunk: string, tagName: string): (r: string)
    ensures !Contains(chunk, StartTag(tagName)) ==> r == []
  {
    FieldAfter(chunk, StartTag(tagName))
  }

  /** Within a chunk, the cut after index `a` falls on the leftmost tag at
      or after `a`, or at the end of the chunk when there is none. */
  lemma CutInChunk(chunk: string, a: nat)
    requires a <= |chunk|
    ensures a + Cut(chunk[a..]) <= |chunk|
    ensures a + Cut(chunk[a..]) == |chunk| || TagAt(chunk, a + Cut(chunk[a..]))
    ensures forall j :: a <= j < a + Cut(chunk[a..]) ==> !TagAt(chunk, j)
  {
    var rest := chunk[a..];
    var n := Cut(rest);
    if n < |rest| {
      assert chunk[a..|chunk|] == rest;
      TagAtInSlice(chunk, a, |chunk|, n);
    }
    forall j | a <= j < a + n ensures !TagAt(chunk, j) {
      if TagAt(chunk, j) {
        TagAtInSuffix(chunk, a, j - a);
      }
    }
  }

  /** The field is the stretch of the chunk from the end of the first
      occurrence of the start tag up to the cut, tidied. */
  lemma FieldAfterAt(chunk: string, startTag: string)
    requires IndexOf(chunk, startTag).Some?
    ensures var a := IndexOf(chunk, startTag).value + |startTag|;
            a <= |chunk| && FieldAfter(chunk, startTag) == Tidy(chunk[a..a + Cut(chunk[a..])])
  {
  }

  /** The tidied stretch `x` of `chunk[a..e]` lies inside that stretch. */
  lemma TidyInChunk(chunk: string, a: nat, e: nat, x: string) returns (k: nat)
    requires a <= e <= |chunk| && x == Tidy(chunk[a..e])
    ensures a <= k && k + |x| <= e && Occurs(chunk, x, k)
    ensures forall i :: a <= i < k ==> IsLeadChar(chunk[i])
    ensures forall i :: k + |x| <= i < e ==> IsSpace(chunk[i])
    ensures x != [] ==> !IsLeadChar(x[0]) && !IsSpace(x[|x| - 1])
  {
    var v := chunk[a..e];
    var o := TidyShape(v);
    SliceOfSlice(chunk, a, e, o, o + |x|);
    k := a + o;
    forall i | a <= i < k ensures IsLeadChar(chunk[i]) {
      assert chunk[i] == v[i - a];
    }
    forall i | k + |x| <= i < e ensures IsSpace(chunk[i]) {
      assert chunk[i] == v[i - a];
    }
  }

  /** A piece of the chunk lying in a stretch where no tag matches holds no tag itself. */
  lemma TagFreeBetween(chunk: string, lo: nat, hi: nat, r: string, k: nat)
    requires lo <= k && k + |r| <= hi <= |chunk| && chunk[k..k + |r|] == r
    requires forall j :: lo <= j < hi ==> !TagAt(chunk, j)
    ensures TagFree(r)
  {
    forall j, n | TagOfLengthAt(r, j, n) ensures false {
      MatchIsTagAt(r, j, n);
      TagAtInSlice(chunk, k, k + |r|, j);
    }
  }

  /** A piece of the text between `a` and the next cut holds no tag. */
  lemma TagFreeBeforeCut(chunk: string, a: nat, r: string, k: nat)
    requires a <= |chunk|
    requires a <= k && k + |r| <= a + Cut(chunk[a..]) && chunk[k..k + |r|] == r
    ensures TagFree(r)
  {
    CutInChunk(chunk, a);
    TagFreeBetween(chunk, a, a + Cut(chunk[a..]), r, k);
  }

  /** The tidied text `x` between `a` and the next cut holds no tag. */
  lemma CutTidyTagFree(chunk: string, a: nat, x: string)
    requires a <= |chunk| && x == Tidy(chunk[a..a + Cut(chunk[a..])])
    ensures TagFree(x)
  {
    var k := TidyInChunk(chunk, a, a + Cut(chunk[a..]), x);
    TagFreeBeforeCut(chunk, a, x, k);
  }

  /** `x` sits at `k` in `chunk`, between the end `a` of the start tag and the next tag: only
      leading characters precede it, only whitespace follows it, and it holds no tag. */
  ghost predicate FieldAfterFrame(chunk: string, a: nat, x: string, k: nat) {
    a <= k && a <= |chunk| && k + |x| <= a + Cut(chunk[a..]) && Occurs(chunk, x, k) && TagFree(x)
    && (forall i :: a <= i < k ==> IsLeadChar(chunk[i]))
    && (forall i :: k + |x| <= i < a + Cut(chunk[a..]) ==> IsSpace(chunk[i]))
    && (x != [] ==> !IsLeadChar(x[0]) && !IsSpace(x[|x| - 1]))
  }

  /** The tidied text `x` between `a` and the next cut is a slice of the
      chunk at or after `a`, and no tag matches inside it. */
  lemma CutTidyIsSlice(chunk: string, a: nat, x: string) returns (k: nat)
    requires a <= |chunk| && x == Tidy(chunk[a..a + Cut(chunk[a..])])
    ensures FieldAfterFrame(chunk, a, x, k)
  {
    k := TidyInChunk(chunk, a, a + Cut(chunk[a..]), x);
    CutTidyTagFree(chunk, a, x);
  }

  /** A field is a slice of the chunk lying after the first occurrence of
      its start tag, and no `$$$\w+$$$` tag matches inside it. */
  lemma FieldAfterIsSlice(chunk: string, startTag: string) returns (k: nat)
    requires IndexOf(chunk, startTag).Some?
    ensures FieldAfterFrame(chunk, IndexOf(chunk, startTag).value + |startTag|, FieldAfter(chunk, startTag), k)
  {
    FieldAfterAt(chunk, startTag);
    k := CutTidyIsSlice(chunk, IndexOf(chunk, startTag).value + |startTag|, FieldAfter(chunk, startTag));
  }

  /** A non-empty extracted field is a slice of the chunk lying after the
      first occurrence of `$$$tagName$$$`, and no tag matches inside it. */
  lemma ExtractFieldIsSlice(chunk: string, tagName: string) returns (k: nat)
    requires ExtractField(chunk, tagName) != []
    ensures Contains(chunk, StartTag(tagName))
    ensures FieldAfterFrame(chunk, IndexOf(chunk, StartTag(tagName)).value + |StartTag(tagName)|,
                            ExtractField(chunk, tagName), k)
  {
    k := FieldAfterIsSlice(chunk, StartTag(tagName));
  }

  /** The cut computed on a suffix of `whole` is the cut computed on that suffix alone. */
  lemma CutOfSuffix(whole: string, a: nat, rest: string)
    requires a <= |whole| && whole[a..] == rest
    ensures whole[a..a + Cut(whole[a..])] == rest[..Cut(rest)]
  {
  }

  /** The field is taken from what follows the first occurrence of the start tag. */
  lemma FieldAfterOfRest(chunk: string, startTag: string, rest: string)
    requires IndexOf(chunk, startTag).Some?
    requires chunk[IndexOf(chunk, startTag).value + |startTag|..] == rest
    ensures FieldAfter(chunk, startTag) == Tidy(rest[..Cut(rest)])
  {
    FieldAfterAt(chunk, startTag);
    CutOfSuffix(chunk, IndexOf(chunk, startTag).value + |startTag|, rest);
  }

  /** Only the first occurrence of the start tag matters: the text before it
      is ignored, and so is any later occurrence. */
  lemma FieldAfterFirstOccurrence(prefix: string, startTag: string, rest: string)
    requires forall j :: 0 <= j < |prefix| ==> !Occurs(prefix + startTag + rest, startTag, j)
    ensures FieldAfter(prefix + startTag + rest, startTag) == Tidy(rest[..Cut(rest)])
  {
    var whole := prefix + startTag + rest;
    assert whole[|prefix|..|prefix| + |startTag|] == startTag;
    IndexOfIs(whole, startTag, |prefix|);
    assert whole[|prefix| + |startTag|..] == rest;
    FieldAfterOfRest(whole, startTag, rest);
  }

  // ---------------------------------------------------------------------
  // Step 4: one post per chunk, with defaults
  // ---------------------------------------------------------------------

  /** The object literal of `chunks.map(chunk => ...)`: each field falls back
      to its default exactly when its extraction is empty; the content falls
      back to the whole, untrimmed chunk. */
  function BuildPost(chunk: string): (p: GeneratedPost)
    ensures p.title != [] && p.angle != [] && p.imageKeyword != []
    ensures chunk != [] ==> p.content != []
    ensures p.title == (if ExtractField(chunk, "TITLE") == [] then DefaultTitle else ExtractField(chunk, "TITLE"))
    ensures p.angle == (if ExtractField(chunk, "ANGLE") == [] then DefaultAngle else ExtractField(chunk, "ANGLE"))
    ensures p.imageKeyword == (if ExtractField(chunk, "IMAGE_KEYWORD") == [] then DefaultImageKeyword
                               else ExtractField(chunk, "IMAGE_KEYWORD"))
    ensures p.content == (if ExtractField(chunk, "CONTENT") == [] then chunk else ExtractField(chunk, "CONTENT"))
  {
    var title := ExtractField(chunk, "TITLE");
    var angle := ExtractField(chunk, "ANGLE");
    var imageKeyword := ExtractField(chunk, "IMAGE_KEYWORD");
    var content := ExtractField(chunk, "CONTENT");
    GeneratedPost(if title != [] then title else DefaultTitle,
                  if angle != [] then angle else DefaultAngle,
                  if imageKeyword != [] then imageKeyword else DefaultImageKeyword,
                  if content != [] then content else chunk)
  }

  /** A chunk that lacks a tag gets that field's default. */
  lemma MissingTagGivesDefault(chunk: string)
    ensures !Contains(chunk, StartTag("TITLE")) ==> BuildPost(chunk).title == DefaultTitle
    ensures !Contains(chunk, StartTag("ANGLE")) ==> BuildPost(chunk).angle == DefaultAngle
    ensures !Contains(chunk, StartTag("IMAGE_KEYWORD")) ==> BuildPost(chunk).imageKeyword == DefaultImageKeyword
    ensures !Contains(chunk, StartTag("CONTENT")) ==> BuildPost(chunk).content == chunk
  {
  }

  // ---------------------------------------------------------------------
  // Step 2: splitting and filtering, and the whole of `parseResponse`
  // ---------------------------------------------------------------------

  /** The filter `c => c.trim().length > 20`. */
  predicate IsPostChunk(c: string) {
    |Trim(c)| > MinChunkLength
  }

  /** `clean.split('---POST_DIVIDER---')`. */
  function Pieces(text: string): (r: seq<string>)
    ensures |r| >= 1
  {
    Split(Clean(text), PostDivider)
  }

  /** The surviving chunks of the cleaned text. */
  function Chunks(text: string): (r: seq<string>)
    ensures |r| <= |Pieces(text)|
    ensures forall i :: 0 <= i < |r| ==> IsPostChunk(r[i])
  {
    Filter(Pieces(text), IsPostChunk)
  }

  /** `parseResponse(text)`. */
  function ParseResponse(text: string): (posts: seq<GeneratedPost>)
    ensures |posts| == |Chunks(text)|
    ensures forall i :: 0 <= i < |posts| ==> posts[i] == BuildPost(Chunks(text)[i])
    ensures forall i :: 0 <= i < |posts| ==>
              posts[i].title != [] && posts[i].angle != [] && posts[i].imageKeyword != [] && posts[i].content != []
  {
    var chunks := Chunks(text);
    forall i | 0 <= i < |chunks| ensures chunks[i] != [] {
      assert |Trim(chunks[i])| <= |chunks[i]|;
    }
    seq(|chunks|, i requires 0 <= i < |chunks| => BuildPost(chunks[i]))
  }

  /** The chunks are the pieces of the cleaned text, split on the divider,
      whose trimmed length exceeds 20, in their original order: `idx` lists
      the positions of the pieces that survive the filter. */
  lemma ChunksFromPieces(text: string) returns (idx: seq<nat>)
    ensures |idx| == |Chunks(text)|
    ensures forall i :: 0 <= i < |idx| ==> idx[i] < |Pieces(text)| && Chunks(text)[i] == Pieces(text)[idx[i]]
    ensures forall i, j :: 0 <= i < j < |idx| ==> idx[i] < idx[j]
    ensures forall n :: 0 <= n < |Pieces(text)| ==> (IsPostChunk(Pieces(text)[n]) <==> n in idx)
  {
    var pieces := Pieces(text);
    idx := Survivors(pieces, IsPostChunk, 0);
    FilterSurvivorsAt(pieces, IsPostChunk, 0);
    SurvivorsIncreasing(pieces, IsPostChunk, 0);
    SurvivorsComplete(pieces, IsPostChunk, 0);
  }

  /** Post `i` is built from the piece at position `idx[i]`. */
  lemma ParseResponseFromPieces(text: string) returns (idx: seq<nat>)
    ensures |ParseResponse(text)| == |idx|
    ensures forall i :: 0 <= i < |idx| ==>
              idx[i] < |Pieces(text)| && ParseResponse(text)[i] == BuildPost(Pieces(text)[idx[i]])
    ensures forall i, j :: 0 <= i < j < |idx| ==> idx[i] < idx[j]
    ensures forall n :: 0 <= n < |Pieces(text)| ==> (IsPostChunk(Pieces(text)[n]) <==> n in idx)
  {
    idx := ChunksFromPieces(text);
  }

  /** There are at most as many posts as dividers plus one, and the dividers
      take up room in the text. */
  lemma ParseResponseCount(text: string)
    ensures |ParseResponse(text)| <= |Pieces(text)|
    ensures (|Pieces(text)| - 1) * |PostDivider| <= |text|
  {
    var pieces := Pieces(text);
    JoinSplit(Clean(text), PostDivider);
    JoinLength(pieces, PostDivider);
  }

  /** A reply wrapped in a code fence parses to the same posts as the bare reply. */
  lemma ParseUnwrapsFence(w: string, r: string)
    requires forall i :: 0 <= i < |w| ==> IsAsciiLetter(w[i])
    requires FenceFree(r)
    ensures ParseResponse(Fence + w + "\n" + r + Fence) == ParseResponse(r)
  {
    CleanUnwrapsFence(w, r);
    FenceFreeUnchanged(r);
    assert Pieces(Fence + w + "\n" + r + Fence) == Pieces(r);
  }
}
