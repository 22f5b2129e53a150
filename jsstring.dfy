/** The few ECMAScript string built-ins the parser relies on, on `seq<char>`:
    the `\s` and `\w` classes, `String.prototype.trim`, `indexOf`, `split`
    with a string separator, `join`, `Array.prototype.filter`, and the
    anchored "strip a leading run" replacement. */
module JsString {

  datatype Option<T> = None | Some(value: T)

  /** `\s` in an ECMAScript regular expression, and what `trim` strips:
      the WhiteSpace and LineTerminator productions (Unicode category Zs
      as of current Unicode tables). */
  predicate IsSpace(c: char) {
    c == '\t' || c == '\n' || c == '\U{B}' || c == '\U{C}' || c == '\r'
    || c == ' ' || c == '\U{A0}' || c == '\U{1680}'
    || ('\U{2000}' <= c <= '\U{200A}')
    || c == '\U{2028}' || c == '\U{2029}' || c == '\U{202F}' || c == '\U{205F}'
    || c == '\U{3000}' || c == '\U{FEFF}'
  }

  /** `\w`: ASCII letters, digits and the underscore. */
  predicate IsWordChar(c: char) {
    'a' <= c <= 'z' || 'A' <= c <= 'Z' || '0' <= c <= '9' || c == '_'
  }

  /** `[a-z]` under the `i` flag: the ASCII letters of either case. */
  predicate IsAsciiLetter(c: char) {
    'a' <= c <= 'z' || 'A' <= c <= 'Z'
  }

  /** `[\s:：]`: white space, the ASCII colon and the full-width colon. */
  predicate IsLeadChar(c: char) {
    IsSpace(c) || c == ':' || c == '：'
  }

  /** How the classes relate: `\s` and `\w` are disjoint, `[\s:：]` holds all
      of `\s`, `[a-z]` under `i` lies inside `\w`, and `$` is not a word character. */
  lemma CharClassFacts(c: char)
    ensures IsSpace(c) ==> IsLeadChar(c) && !IsWordChar(c)
    ensures IsAsciiLetter(c) ==> IsWordChar(c)
    ensures !IsWordChar('$') && !IsSpace(':') && !IsSpace('：')
  {
  }

  /** The character classes that the parser's regular expressions repeat. */
  datatype CharClass = WhiteSpace | Word | AsciiLetter | LeadStrip

  predicate InClass(c: char, k: CharClass) {
    match k
    case WhiteSpace => IsSpace(c)
    case Word => IsWordChar(c)
    case AsciiLetter => IsAsciiLetter(c)
    case LeadStrip => IsLeadChar(c)
  }

  /** `pat` occurs in `s` starting at index `i`. */
  predicate Occurs(s: string, pat: string, i: int) {
    0 <= i && i + |pat| <= |s| && s[i..i + |pat|] == pat
  }

  ghost predicate Contains(s: string, pat: string) {
    exists i :: Occurs(s, pat, i)
  }

  /** The end of the run of characters of class `p` in `s` that starts at index `i`. */
  function RunEnd(s: string, i: nat, p: CharClass): (e: nat)
    requires i <= |s|
    ensures i <= e <= |s|
    decreases |s| - i
  {
    if i < |s| && InClass(s[i], p) then RunEnd(s, i + 1, p) else i
  }

  /** Every character of the run that `RunEnd` skips is of class `p`, and
      the run stops at a character of another class or at the end of `s`. */
  lemma {:induction false} RunEndAll(s: string, i: nat, p: CharClass)
    requires i <= |s|
    ensures forall k {:trigger InClass(s[k], p)} :: i <= k < RunEnd(s, i, p) ==> InClass(s[k], p)
    ensures RunEnd(s, i, p) < |s| ==> !InClass(s[RunEnd(s, i, p)], p)
    decreases |s| - i
  {
    if i < |s| && InClass(s[i], p) {
      RunEndAll(s, i + 1, p);
    }
  }

  /** A run of class `p` that stretches from `i` to a character of another
      class, or to the end of `s`, ends there. */
  lemma {:induction false} RunEndAt(s: string, i: nat, k: nat, p: CharClass)
    requires i <= k <= |s|
    requires forall j :: i <= j < k ==> InClass(s[j], p)
    requires k < |s| ==> !InClass(s[k], p)
    ensures RunEnd(s, i, p) == k
    decreases k - i
  {
    if i < k {
      RunEndAt(s, i + 1, k, p);
    }
  }

  /** The start of the run of characters of class `p` in `s` that ends at
      index `j`, looking back no further than index `lo`. */
  function RunStart(s: string, lo: nat, j: nat, p: CharClass): (b: nat)
    requires lo <= j <= |s|
    ensures lo <= b <= j
    decreases j - lo
  {
    if lo < j && InClass(s[j - 1], p) then RunStart(s, lo, j - 1, p) else j
  }

  /** Every character of the run that `RunStart` skips is of class `p`, and
      the run stops at a character of another class or at `lo`. */
  lemma {:induction false} RunStartAll(s: string, lo: nat, j: nat, p: CharClass)
    requires lo <= j <= |s|
    ensures forall k {:trigger InClass(s[k], p)} :: RunStart(s, lo, j, p) <= k < j ==> InClass(s[k], p)
    ensures lo < RunStart(s, lo, j, p) ==> !InClass(s[RunStart(s, lo, j, p) - 1], p)
    decreases j - lo
  {
    if lo < j && InClass(s[j - 1], p) {
      RunStartAll(s, lo, j - 1, p);
    }
  }

  /** `s` without its longest prefix of characters of class `p`, as an
      anchored `replace(/^[...]+/, '')` leaves it. */
  function DropWhile(s: string, p: CharClass): (r: string)
    ensures |r| <= |s|
  {
    s[RunEnd(s, 0, p)..]
  }

  /** What `DropWhile` leaves is a suffix of `s` that does not start with a
      character of class `p`, and all it drops is of class `p`. */
  lemma DropWhileShape(s: string, p: CharClass)
    ensures DropWhile(s, p) == s[|s| - |DropWhile(s, p)|..]
    ensures DropWhile(s, p) != [] ==> !InClass(DropWhile(s, p)[0], p)
    ensures forall i {:trigger InClass(s[i], p)} :: 0 <= i < |s| - |DropWhile(s, p)| ==> InClass(s[i], p)
  {
    RunEndAll(s, 0, p);
  }

  /** `String.prototype.trim`: white space removed from both ends. */
  function Trim(s: string): (r: string)
    ensures |r| <= |s|
  {
    var a := RunEnd(s, 0, WhiteSpace);
    s[a..RunStart(s, a, |s|, WhiteSpace)]
  }

  /** The trimmed string is a piece of `s` with only white space before it
      and only white space after it, and it neither starts nor ends with
      white space. */
  lemma TrimShape(s: string) returns (a: nat)
    ensures a + |Trim(s)| <= |s| && s[a..a + |Trim(s)|] == Trim(s)
    ensures forall i :: 0 <= i < a ==> IsSpace(s[i])
    ensures forall i :: a + |Trim(s)| <= i < |s| ==> IsSpace(s[i])
    ensures Trim(s) != [] ==> !IsSpace(Trim(s)[0]) && !IsSpace(Trim(s)[|Trim(s)| - 1])
  {
    a := RunEnd(s, 0, WhiteSpace);
    var b := RunStart(s, a, |s|, WhiteSpace);
    RunEndAll(s, 0, WhiteSpace);
    RunStartAll(s, a, |s|, WhiteSpace);
    if a < b {
      assert Trim(s)[0] == s[a] && !InClass(s[a], WhiteSpace);
      assert Trim(s)[b - a - 1] == s[b - 1] && !InClass(s[b - 1], WhiteSpace);
    }
    forall i | 0 <= i < a ensures IsSpace(s[i]) {
      assert InClass(s[i], WhiteSpace);
    }
    forall i | b <= i < |s| ensures IsSpace(s[i]) {
      assert InClass(s[i], WhiteSpace);
    }
  }

  /** Trimming leaves nothing exactly when every character is white space. */
  lemma TrimEmptyIff(s: string)
    ensures Trim(s) == [] <==> forall i :: 0 <= i < |s| ==> IsSpace(s[i])
  {
    var a := RunEnd(s, 0, WhiteSpace);
    RunEndAll(s, 0, WhiteSpace);
    if a < |s| {
      assert RunStart(s, a, |s|, WhiteSpace) > a by {
        RunStartAll(s, a, |s|, WhiteSpace);
        assert !InClass(s[a], WhiteSpace);
      }
    } else {
      forall i | 0 <= i < |s| ensures IsSpace(s[i]) {
        assert InClass(s[i], WhiteSpace);
      }
    }
  }

  /** A string that starts and ends with non-space characters is its own trim. */
  lemma TrimOfTrimmed(s: string)
    requires s != [] && !IsSpace(s[0]) && !IsSpace(s[|s| - 1])
    ensures Trim(s) == s
  {
    assert RunEnd(s, 0, WhiteSpace) == 0;
    assert RunStart(s, 0, |s|, WhiteSpace) == |s|;
  }

  /** The first index at or after `from` where `pat` occurs, as `indexOf` searches. */
  function IndexOfFrom(s: string, pat: string, from: nat): (r: Option<nat>)
    ensures r.Some? ==> from <= r.value && Occurs(s, pat, r.value)
    ensures r.Some? ==> forall j :: from <= j < r.value ==> !Occurs(s, pat, j)
    ensures r.None? ==> forall j :: from <= j ==> !Occurs(s, pat, j)
    decreases |s| - from
  {
    if from + |pat| > |s| then None
    else if s[from..from + |pat|] == pat then Some(from)
    else IndexOfFrom(s, pat, from + 1)
  }

  /** `s.indexOf(pat)`, with `None` for JavaScript's -1. */
  function IndexOf(s: string, pat: string): (r: Option<nat>)
    ensures r.None? <==> !Contains(s, pat)
    ensures r.Some? ==> Occurs(s, pat, r.value)
    ensures r.Some? ==> forall j :: 0 <= j < r.value ==> !Occurs(s, pat, j)
  {
    IndexOfFrom(s, pat, 0)
  }

  /** `indexOf` finds the occurrence that has no other before it. */
  lemma IndexOfIs(s: string, pat: string, i: nat)
    requires Occurs(s, pat, i)
    requires forall j :: 0 <= j < i ==> !Occurs(s, pat, j)
    ensures IndexOf(s, pat) == Some(i)
  {
  }

  /** A slice of a slice is a slice of the whole string. */
  lemma SliceOfSlice(s: string, a: nat, b: nat, x: nat, y: nat)
    requires a <= b <= |s| && x <= y <= b - a
    ensures s[a..b][x..y] == s[a + x..a + y]
  {
    forall i | 0 <= i < y - x ensures s[a..b][x..y][i] == s[a + x..a + y][i] {
      assert s[a..b][x..y][i] == s[a..b][x + i] == s[a + x + i];
    }
  }

  /** An occurrence inside a slice is an occurrence in the whole string. */
  lemma OccursInSlice(s: string, pat: string, a: nat, b: nat, j: int)
    requires a <= b <= |s| && Occurs(s[a..b], pat, j)
    ensures Occurs(s, pat, a + j)
  {
    forall k | 0 <= k < |pat| ensures s[a + j + k] == pat[k] {
      assert s[a..b][j..j + |pat|][k] == pat[k];
    }
    assert s[a + j..a + j + |pat|] == pat;
  }

  /** `s.split(sep)` for a non-empty string separator: the pieces between
      the non-overlapping occurrences found left to right. */
  function Split(s: string, sep: string): (r: seq<string>)
    requires sep != []
    ensures |r| >= 1
    decreases |s|
  {
    match IndexOf(s, sep)
    case None => [s]
    case Some(i) => [s[..i]] + Split(s[i + |sep|..], sep)
  }

  /** No piece of a split contains the separator, and there is more than one
      piece exactly when the input contains it. */
  lemma {:induction false} SplitPieces(s: string, sep: string)
    requires sep != []
    ensures forall i :: 0 <= i < |Split(s, sep)| ==> !Contains(Split(s, sep)[i], sep)
    ensures |Split(s, sep)| == 1 <==> !Contains(s, sep)
    decreases |s|
  {
    var found := IndexOf(s, sep);
    if found.Some? {
      var i := found.value;
      var rest := s[i + |sep|..];
      SplitPieces(rest, sep);
      forall j | Occurs(s[..i], sep, j) ensures false {
        OccursInSlice(s, sep, 0, i, j);
      }
      assert Split(s, sep) == [s[..i]] + Split(rest, sep);
    }
  }

  /** `pieces.join(sep)`. */
  function Join(pieces: seq<string>, sep: string): string {
    if |pieces| == 0 then []
    else if |pieces| == 1 then pieces[0]
    else pieces[0] + sep + Join(pieces[1..], sep)
  }

  /** Joining the pieces of a split with the separator gives back the input. */
  lemma {:induction false} JoinSplit(s: string, sep: string)
    requires sep != []
    ensures Join(Split(s, sep), sep) == s
    decreases |s|
  {
    var found := IndexOf(s, sep);
    if found.Some? {
      var i := found.value;
      var rest := s[i + |sep|..];
      var tail := Split(rest, sep);
      assert Split(s, sep) == [s[..i]] + tail;
      JoinSplit(rest, sep);
      assert Join([s[..i]] + tail, sep) == s[..i] + sep + Join(tail, sep) by {
        assert ([s[..i]] + tail)[1..] == tail;
      }
      assert s[i..i + |sep|] == sep;
      assert s == s[..i] + sep + rest;
    }
  }

  /** The total length of the pieces plus one separator between each pair. */
  lemma {:induction false} JoinLength(pieces: seq<string>, sep: string)
    requires |pieces| >= 1
    ensures |Join(pieces, sep)| >= (|pieces| - 1) * |sep|
  {
    if |pieces| > 1 {
      JoinLength(pieces[1..], sep);
    }
  }

  /** An occurrence lying within a prefix `t` of `s` is an occurrence in `t`. */
  lemma OccursInPrefix(s: string, t: string, pat: string, j: int)
    requires |t| <= |s| && s[..|t|] == t
    requires Occurs(s, pat, j) && j + |pat| <= |t|
    ensures Occurs(t, pat, j)
  {
    SliceOfSlice(s, 0, |t|, j, j + |pat|);
  }

  /** Splitting a join gives back the pieces, when no occurrence of the
      separator starts inside a piece, not even one running on into the
      separator that follows it. */
  lemma {:induction false} SplitJoin(pieces: seq<string>, sep: string)
    requires sep != [] && |pieces| >= 1
    requires forall k, j :: 0 <= k < |pieces| && 0 <= j < |pieces[k]| ==> !Occurs(pieces[k] + sep, sep, j)
    ensures Split(Join(pieces, sep), sep) == pieces
  {
    var s := Join(pieces, sep);
    var p := pieces[0];
    if |pieces| == 1 {
      forall j | Occurs(p, sep, j) ensures false {
        assert (p + sep)[0..|p|] == p;
        OccursInSlice(p + sep, sep, 0, |p|, j);
      }
    } else {
      var rest := Join(pieces[1..], sep);
      assert s == p + sep + rest;
      assert Occurs(s, sep, |p|) by {
        assert s[|p|..|p| + |sep|] == sep;
      }
      forall j | 0 <= j < |p| ensures !Occurs(s, sep, j) {
        if Occurs(s, sep, j) {
          assert s[..|p + sep|] == p + sep;
          OccursInPrefix(s, p + sep, sep, j);
        }
      }
      assert IndexOf(s, sep) == Some(|p|);
      assert s[|p| + |sep|..] == rest;
      assert s[..|p|] == p;
      SplitJoin(pieces[1..], sep);
      assert Split(s, sep) == [p] + Split(rest, sep);
      assert pieces == [p] + pieces[1..];
    }
  }

  /** `xs.filter(keep)`. */
  function Filter<T>(xs: seq<T>, keep: T -> bool): (r: seq<T>)
    ensures |r| <= |xs|
    ensures forall i :: 0 <= i < |r| ==> keep(r[i])
  {
    if xs == [] then []
    else (if keep(xs[0]) then [xs[0]] else []) + Filter(xs[1..], keep)
  }

  /** The indices, in increasing order and offset by `base`, of the elements that `keep` accepts. */
  ghost function Survivors<T>(xs: seq<T>, keep: T -> bool, base: nat): seq<nat> {
    if xs == [] then []
    else (if keep(xs[0]) then [base] else []) + Survivors(xs[1..], keep, base + 1)
  }

  /** Every surviving index lies in range and names the element the filter kept in that position. */
  lemma {:induction false} FilterSurvivorsAt<T>(xs: seq<T>, keep: T -> bool, base: nat)
    ensures |Survivors(xs, keep, base)| == |Filter(xs, keep)|
    ensures forall i :: 0 <= i < |Survivors(xs, keep, base)| ==>
              base <= Survivors(xs, keep, base)[i] < base + |xs|
              && Filter(xs, keep)[i] == xs[Survivors(xs, keep, base)[i] - base]
  {
    if xs != [] {
      var tail := xs[1..];
      FilterSurvivorsAt(tail, keep, base + 1);
      var r, idx := Filter(xs, keep), Survivors(xs, keep, base);
      var r', idx' := Filter(tail, keep), Survivors(tail, keep, base + 1);
      var head := if keep(xs[0]) then [base] else [];
      assert idx == head + idx';
      assert r == (if keep(xs[0]) then [xs[0]] else []) + r';
      forall i | 0 <= i < |idx| ensures base <= idx[i] < base + |xs| && r[i] == xs[idx[i] - base] {
        if i >= |head| {
          assert idx[i] == idx'[i - |head|];
          assert r[i] == r'[i - |head|];
          assert tail[idx[i] - base - 1] == xs[idx[i] - base];
        }
      }
    }
  }

  /** The surviving indices are strictly increasing and all at least `base`. */
  lemma {:induction false} SurvivorsIncreasing<T>(xs: seq<T>, keep: T -> bool, base: nat)
    ensures forall i :: 0 <= i < |Survivors(xs, keep, base)| ==> base <= Survivors(xs, keep, base)[i]
    ensures forall i, j :: 0 <= i < j < |Survivors(xs, keep, base)| ==>
              Survivors(xs, keep, base)[i] < Survivors(xs, keep, base)[j]
  {
    if xs != [] {
      SurvivorsIncreasing(xs[1..], keep, base + 1);
      var idx' := Survivors(xs[1..], keep, base + 1);
      var head := if keep(xs[0]) then [base] else [];
      assert Survivors(xs, keep, base) == head + idx';
    }
  }

  /** An index survives exactly when `keep` accepts its element. */
  lemma {:induction false} SurvivorsComplete<T>(xs: seq<T>, keep: T -> bool, base: nat)
    ensures forall n :: 0 <= n < |xs| ==> (keep(xs[n]) <==> base + n in Survivors(xs, keep, base))
  {
    if xs != [] {
      var tail := xs[1..];
      SurvivorsComplete(tail, keep, base + 1);
      SurvivorsIncreasing(tail, keep, base + 1);
      var idx' := Survivors(tail, keep, base + 1);
      var head := if keep(xs[0]) then [base] else [];
      assert Survivors(xs, keep, base) == head + idx';
      assert base !in idx';
      forall n | 0 < n < |xs| ensures keep(xs[n]) <==> base + n in Survivors(xs, keep, base) {
        assert xs[n] == tail[n - 1];
      }
    }
  }
}
