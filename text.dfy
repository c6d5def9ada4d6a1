/**
 * The string operations the program takes from Python's `str`: `isspace`,
 * `upper`, `strip`, `in`, `splitlines` and `"\n".join`, restricted to ASCII
 * and, for line splitting, to the `\n` terminator.
 */
module Text {
  import opened Wrappers

  /** `str.isspace()` on one ASCII character: tab, line feed, vertical tab,
      form feed, carriage return, the separators 0x1C-0x1F and the space. */
  predicate IsSpace(c: char) {
    var n := c as int;
    (9 <= n <= 13) || (28 <= n <= 32)
  }

  /** Every character of `s[lo..hi]` is white space. */
  ghost predicate SpacesBetween(s: string, lo: int, hi: int)
    requires 0 <= lo && hi <= |s|
  {
    forall i :: lo <= i < hi ==> IsSpace(s[i])
  }

  /** ASCII `upper()` of one character. */
  function UpperChar(c: char): char {
    if 'a' <= c <= 'z' then (c as int - 32) as char else c
  }

  /** ASCII `upper()`: no lower-case letter is left, each lower-case letter
      becomes its capital, and every other character is kept. */
  function Upper(s: string): (u: string)
    ensures |u| == |s|
    ensures forall i :: 0 <= i < |u| ==> !('a' <= u[i] <= 'z')
    ensures forall i :: 0 <= i < |s| && 'a' <= s[i] <= 'z' ==> u[i] as int == s[i] as int - 32
    ensures forall i :: 0 <= i < |s| && !('a' <= s[i] <= 'z') ==> u[i] == s[i]
  {
    seq(|s|, i requires 0 <= i < |s| => UpperChar(s[i]))
  }

  /** `w` occurs in `s` at index `i`. */
  predicate PieceAt(s: string, w: string, i: nat) {
    i + |w| <= |s| && s[i..i + |w|] == w
  }

  /** Python's `w in s` on strings: `w` occurs in `s` as a contiguous piece. */
  predicate Contains(s: string, w: string): (r: bool)
    ensures r <==> exists i: nat :: PieceAt(s, w, i)
    decreases |s|
  {
    PieceAtStart(s, w);
    if |s| > 0 then PieceInTail(s, w); w <= s || Contains(s[1..], w)
    else w <= s
  }

  /** `w` is a prefix of `s` exactly when it occurs at index 0. */
  lemma PieceAtStart(s: string, w: string)
    ensures w <= s <==> PieceAt(s, w, 0)
  {
    if PieceAt(s, w, 0) {
      assert w == s[..|w|];
    }
  }

  /** The pieces of `s[1..]` are the pieces of `s` from index 1 on. */
  lemma PieceInTail(s: string, w: string)
    requires |s| > 0
    ensures (exists i: nat :: PieceAt(s[1..], w, i)) <==> (exists i: nat :: i > 0 && PieceAt(s, w, i))
    ensures (exists i: nat :: PieceAt(s, w, i)) <==> PieceAt(s, w, 0) || exists i: nat :: PieceAt(s[1..], w, i)
  {
    forall i: nat | i + |w| < |s| ensures PieceAt(s[1..], w, i) <==> PieceAt(s, w, i + 1) {
      assert s[1..][i..i + |w|] == s[i + 1..i + 1 + |w|];
    }
    if exists i: nat :: i > 0 && PieceAt(s, w, i) {
      var i: nat :| i > 0 && PieceAt(s, w, i);
      assert PieceAt(s[1..], w, i - 1);
    }
  }

  /** A one-character text occurs in `s` exactly when that character does. */
  lemma ContainsChar(s: string, c: char)
    ensures Contains(s, [c]) <==> exists i :: 0 <= i < |s| && s[i] == c
  {
    if exists i :: 0 <= i < |s| && s[i] == c {
      var i :| 0 <= i < |s| && s[i] == c;
      assert s[i..i + 1] == [c];
      assert PieceAt(s, [c], i);
    }
    if Contains(s, [c]) {
      var i: nat :| PieceAt(s, [c], i);
      assert s[i..i + 1][0] == s[i];
    }
  }

  /** The first index at or after `from` holding `c`. */
  function FindChar(s: string, c: char, from: nat): (r: Option<nat>)
    requires from <= |s|
    ensures r.Some? ==> from <= r.value < |s| && s[r.value] == c
    ensures r.Some? ==> forall k :: from <= k < r.value ==> s[k] != c
    ensures r.None? ==> forall k :: from <= k < |s| ==> s[k] != c
    decreases |s| - from
  {
    if from == |s| then None
    else if s[from] == c then Some(from)
    else FindChar(s, c, from + 1)
  }

  /** `s` without its leading white space. */
  function TrimLeft(s: string): string {
    if |s| > 0 && IsSpace(s[0]) then TrimLeft(s[1..]) else s
  }

  /** `s` without its trailing white space. */
  function TrimRight(s: string): string {
    if |s| > 0 && IsSpace(s[|s| - 1]) then TrimRight(s[..|s| - 1]) else s
  }

  /** `TrimLeft(s)` is a suffix of `s` after white space only, and it does not
      start with white space. */
  lemma {:induction false} TrimLeftShape(s: string)
    ensures var r := TrimLeft(s);
            && |r| <= |s| && r == s[|s| - |r|..]
            && SpacesBetween(s, 0, |s| - |r|)
            && (r == [] || !IsSpace(r[0]))
  {
    if |s| > 0 && IsSpace(s[0]) {
      TrimLeftShape(s[1..]);
      var r := TrimLeft(s);
      assert forall i :: 1 <= i < |s| ==> s[1..][i - 1] == s[i];
      assert s[1..][|s| - 1 - |r|..] == s[|s| - |r|..];
    }
  }

  /** `TrimRight(s)` is a prefix of `s` before white space only, and it does
      not end with white space. */
  lemma {:induction false} TrimRightShape(s: string)
    ensures var r := TrimRight(s);
            && |r| <= |s| && r == s[..|r|]
            && SpacesBetween(s, |r|, |s|)
            && (r == [] || !IsSpace(r[|r| - 1]))
  {
    if |s| > 0 && IsSpace(s[|s| - 1]) {
      TrimRightShape(s[..|s| - 1]);
      var r := TrimRight(s);
      assert forall i :: 0 <= i < |s| - 1 ==> s[..|s| - 1][i] == s[i];
      assert s[..|s| - 1][..|r|] == s[..|r|];
    }
  }

  /** Python's `str.strip()` with no argument: never longer than `s`, and
      neither starting nor ending with white space. */
  function Strip(s: string): (r: string)
    ensures |r| <= |s|
    ensures r == [] || (!IsSpace(r[0]) && !IsSpace(r[|r| - 1]))
  {
    var l := TrimLeft(s);
    TrimLeftShape(s);
    TrimRightShape(l);
    TrimRight(l)
  }

  /** `Strip(s)` is the piece `s[a..b]` left when the white space at both ends
      is cut off: what is cut is white space, and what is kept starts and ends
      with a character that is not. */
  lemma StripBounds(s: string) returns (a: nat, b: nat)
    ensures a <= b <= |s| && Strip(s) == s[a..b]
    ensures SpacesBetween(s, 0, a) && SpacesBetween(s, b, |s|)
    ensures a < b ==> !IsSpace(s[a]) && !IsSpace(s[b - 1])
  {
    var l := TrimLeft(s);
    var r := TrimRight(l);
    TrimLeftShape(s);
    TrimRightShape(l);
    a := |s| - |l|;
    b := a + |r|;
    assert l == s[a..];
    assert r == l[..|r|];
    assert s[a..b] == r;
    forall i | b <= i < |s| ensures IsSpace(s[i]) {
      assert s[i] == l[i - a];
    }
    if a < b {
      assert s[a] == r[0];
      assert s[b - 1] == r[|r| - 1];
    }
  }

  /** Cutting leading white space up to the first other character. */
  lemma {:induction false} TrimLeftSkips(s: string, a: nat)
    requires a <= |s| && SpacesBetween(s, 0, a)
    requires a == |s| || !IsSpace(s[a])
    ensures TrimLeft(s) == s[a..]
  {
    if a > 0 {
      TrimLeftSkips(s[1..], a - 1);
      assert s[1..][a - 1..] == s[a..];
    }
  }

  /** Cutting trailing white space back to the last other character. */
  lemma {:induction false} TrimRightSkips(s: string, b: nat)
    requires b <= |s| && SpacesBetween(s, b, |s|)
    requires b == 0 || !IsSpace(s[b - 1])
    ensures TrimRight(s) == s[..b]
    decreases |s| - b
  {
    if b < |s| {
      TrimRightSkips(s[..|s| - 1], b);
      assert s[..|s| - 1][..b] == s[..b];
    }
  }

  /** A character that is not white space lies before a white-space tail. */
  lemma NonSpaceBeforeTail(s: string, k: nat, i: nat)
    requires k <= |s| && SpacesBetween(s, k, |s|)
    requires i < |s| && !IsSpace(s[i])
    ensures i < k
  {
  }

  /** The converse of StripBounds: whenever `s[a..b]` is framed by white space
      and does not itself start or end with white space, `Strip` returns it. */
  lemma StripUnique(s: string, a: nat, b: nat)
    requires a <= b <= |s|
    requires SpacesBetween(s, 0, a) && SpacesBetween(s, b, |s|)
    requires a < b ==> !IsSpace(s[a]) && !IsSpace(s[b - 1])
    ensures Strip(s) == s[a..b]
  {
    if a < b {
      TrimLeftSkips(s, a);
      TrimRightSkips(s[a..], b - a);
      assert s[a..][..b - a] == s[a..b];
    } else {
      assert SpacesBetween(s, 0, |s|);
      TrimLeftSkips(s, |s|);
    }
  }

  /** `strip()` is idempotent. */
  lemma StripIdempotent(s: string)
    ensures Strip(Strip(s)) == Strip(s)
  {
    var a, b := StripBounds(s);
    var r := s[a..b];
    StripUnique(r, 0, |r|);
  }

  /** `e` ends the line that starts at `start`: it is the first line feed at
      or after `start`, or the end of the text when there is none. */
  predicate IsLineEnd(s: string, start: nat, e: nat) {
    start <= e <= |s| && (e < |s| ==> s[e] == '\n')
    && forall k :: start <= k < e ==> s[k] != '\n'
  }

  lemma {:induction false} LineEndExists(s: string, start: nat)
    requires start <= |s|
    ensures exists e :: IsLineEnd(s, start, e)
    decreases |s| - start
  {
    if start == |s| || s[start] == '\n' {
      assert IsLineEnd(s, start, start);
    } else {
      LineEndExists(s, start + 1);
      var e :| IsLineEnd(s, start + 1, e);
      assert IsLineEnd(s, start, e);
    }
  }

  /** Where the line starting at `start` ends. */
  function LineEnd(s: string, start: nat): (e: nat)
    requires start <= |s|
    ensures start <= e <= |s|
    ensures e < |s| ==> s[e] == '\n'
  {
    LineEndExists(s, start);
    var e :| IsLineEnd(s, start, e);
    e
  }

  /** A line holds no line feed. */
  lemma LineEndClear(s: string, start: nat)
    requires start <= |s|
    ensures forall k :: start <= k < LineEnd(s, start) ==> s[k] != '\n'
  {
  }

  /** The lines of `s` from position `start` on. */
  function LinesFrom(s: string, start: nat): seq<string>
    requires start <= |s|
    decreases |s| - start
  {
    if start == |s| then []
    else
      var e := LineEnd(s, start);
      [s[start..e]] + (if e == |s| then [] else LinesFrom(s, e + 1))
  }

  /** No line from `start` on holds a line feed. */
  lemma {:induction false} LinesFromOneLine(s: string, start: nat)
    requires start <= |s|
    ensures forall k :: 0 <= k < |LinesFrom(s, start)| ==> OneLine(LinesFrom(s, start)[k])
    decreases |s| - start
  {
    if start < |s| {
      var e := LineEnd(s, start);
      LineEndClear(s, start);
      assert forall i :: 0 <= i < e - start ==> s[start..e][i] == s[start + i];
      if e < |s| {
        LinesFromOneLine(s, e + 1);
        LinesFromCons(s, start, e);
        var rest := LinesFrom(s, e + 1);
        assert forall k :: 1 <= k < |rest| + 1 ==> ([s[start..e]] + rest)[k] == rest[k - 1];
      } else {
        LinesFromLast(s, start, e);
      }
    }
  }

  /** White space around a piece never changes what `strip()` returns. */
  lemma StripPadded(x: string, i: nat, j: nat)
    requires i <= j <= |x| && SpacesBetween(x, 0, i) && SpacesBetween(x, j, |x|)
    ensures Strip(x) == Strip(x[i..j])
  {
    var y := x[i..j];
    var a, b := StripBounds(y);
    assert SpacesBetween(x, 0, i + a) by {
      forall k | 0 <= k < i + a ensures IsSpace(x[k]) {
        if k >= i { assert x[k] == y[k - i]; }
      }
    }
    assert SpacesBetween(x, i + b, |x|) by {
      forall k | i + b <= k < |x| ensures IsSpace(x[k]) {
        if k < j { assert x[k] == y[k - i]; }
      }
    }
    if a < b {
      assert x[i + a] == y[a] && x[i + b - 1] == y[b - 1];
      StripUnique(x, i + a, i + b);
      PieceOfPiece(x, i, j, a, b);
    } else {
      StripUnique(x, i + a, i + a);
    }
  }

  /** `StripPadded` for a piece `s[l..f]` with white space in `s[l..i]` and
      in `s[j..f]`. */
  lemma StripPaddedPiece(s: string, l: nat, i: nat, j: nat, f: nat)
    requires l <= i <= j <= f <= |s|
    requires SpacesBetween(s, l, i) && SpacesBetween(s, j, f)
    ensures Strip(s[l..f]) == Strip(s[i..j])
  {
    var x := s[l..f];
    assert forall k :: 0 <= k < f - l ==> x[k] == s[l + k];
    StripPadded(x, i - l, j - l);
    PieceOfPiece(s, l, f, i - l, j - l);
  }

  /** A piece of a piece is a piece. */
  lemma PieceOfPiece(s: string, l: nat, f: nat, i: nat, j: nat)
    requires l <= f <= |s| && i <= j <= f - l
    ensures s[l..f][i..j] == s[l + i..l + j]
  {
    assert forall k :: 0 <= k < j - i ==> s[l..f][i..j][k] == s[l + i + k];
  }

  /** Python's `str.splitlines()` when `\n` is the only line terminator: the
      pieces between line feeds, without a last empty piece after a final
      line feed. */
  function Lines(s: string): (ls: seq<string>)
    ensures ls == [] <==> s == []
    ensures forall k :: 0 <= k < |ls| ==> OneLine(ls[k])
  {
    LinesFromOneLine(s, 0);
    LinesFrom(s, 0)
  }

  /** `start` begins a line of `s`. */
  predicate LineStart(s: string, p: nat) {
    p == 0 || (0 < p <= |s| && s[p - 1] == '\n')
  }

  /** A line end is the only position that ends a newline-free run followed
      by a line feed or by the end of the text. */
  lemma LineEndIs(s: string, start: nat, e: nat)
    requires start <= e <= |s|
    requires e < |s| ==> s[e] == '\n'
    requires forall k :: start <= k < e ==> s[k] != '\n'
    ensures LineEnd(s, start) == e
  {
    LineEndClear(s, start);
  }

  /** A line ends at or before any line feed after its start. */
  lemma LineEndBefore(s: string, start: nat, m: nat)
    requires start <= m < |s| && s[m] == '\n'
    ensures LineEnd(s, start) <= m
  {
    LineEndClear(s, start);
  }

  /** The start of the line that holds position `i`. */
  lemma {:induction false} LineStartBefore(s: string, i: nat) returns (l: nat)
    requires i <= |s|
    ensures l <= i && LineStart(s, l)
    ensures forall k :: l <= k < i ==> s[k] != '\n'
  {
    if i == 0 || s[i - 1] == '\n' {
      l := i;
    } else {
      l := LineStartBefore(s, i - 1);
    }
  }

  /** A line runs at least as far as its first line feed. */
  lemma LineEndAtLeast(s: string, start: nat, m: nat)
    requires start <= m <= |s|
    requires forall k :: start <= k < m ==> s[k] != '\n'
    ensures LineEnd(s, start) >= m
  {
    LineEndClear(s, start);
  }

  /** Every line of `s` is the piece of `s` from a line start to its line end. */
  lemma {:induction false} LineIsPiece(s: string, start: nat, k: nat) returns (a: nat)
    requires LineStart(s, start) && start <= |s| && k < |LinesFrom(s, start)|
    ensures start <= a < |s| && LineStart(s, a)
    ensures LinesFrom(s, start)[k] == s[a..LineEnd(s, a)]
    decreases |s| - start, 1
  {
    assert start < |s|;
    if k == 0 {
      a := start;
      LinesFromStep(s, start);
    } else {
      a := LaterLineIsPiece(s, start, k);
    }
  }

  lemma {:induction false} LaterLineIsPiece(s: string, start: nat, k: nat) returns (a: nat)
    requires LineStart(s, start) && start < |s| && 0 < k < |LinesFrom(s, start)|
    ensures start <= a < |s| && LineStart(s, a)
    ensures LinesFrom(s, start)[k] == s[a..LineEnd(s, a)]
    decreases |s| - start, 0
  {
    var e := LineEnd(s, start);
    LinesFromStep(s, start);
    assert e < |s|;
    ConsIndex(LinesFrom(s, start), s[start..e], LinesFrom(s, e + 1), k);
    assert LineStart(s, e + 1);
    a := LineIsPiece(s, e + 1, k - 1);
  }

  /** The lines after the first line feed are the later lines. */
  lemma LaterLine(s: string, start: nat, k: nat, line: string)
    requires start <= |s| && LineEnd(s, start) < |s|
    requires k < |LinesFrom(s, LineEnd(s, start) + 1)| && LinesFrom(s, LineEnd(s, start) + 1)[k] == line
    ensures k + 1 < |LinesFrom(s, start)| && LinesFrom(s, start)[k + 1] == line
  {
    var e := LineEnd(s, start);
    LinesFromCons(s, start, e);
    ConsIndex(LinesFrom(s, start), s[start..e], LinesFrom(s, e + 1), k + 1);
  }

  lemma ConsIndex<T>(all: seq<T>, x: T, rest: seq<T>, k: nat)
    requires all == [x] + rest && 0 < k < |all|
    ensures k - 1 < |rest| && all[k] == rest[k - 1]
  {
  }

  /** Every line start before the end of the text begins one of its lines. */
  lemma {:induction false} LineStartIsLine(s: string, start: nat, p: nat) returns (k: nat)
    requires LineStart(s, start) && start <= p < |s| && LineStart(s, p)
    ensures k < |LinesFrom(s, start)| && LinesFrom(s, start)[k] == s[p..LineEnd(s, p)]
    decreases |s| - start, 1
  {
    if p == start {
      k := 0;
      LinesFromStep(s, start);
    } else {
      k := LaterLineStartIsLine(s, start, p);
    }
  }

  lemma {:induction false} LaterLineStartIsLine(s: string, start: nat, p: nat) returns (k: nat)
    requires LineStart(s, start) && start < p < |s| && LineStart(s, p)
    ensures k < |LinesFrom(s, start)| && LinesFrom(s, start)[k] == s[p..LineEnd(s, p)]
    decreases |s| - start, 0
  {
    var e := LineEnd(s, start);
    LineEndBefore(s, start, p - 1);
    var k' := LineStartIsLine(s, e + 1, p);
    LaterLine(s, start, k', s[p..LineEnd(s, p)]);
    k := k' + 1;
  }

  /** Line `k` of `s` runs from a line start `a` to its line end `e`. */
  lemma LineOf(s: string, k: nat) returns (a: nat, e: nat)
    requires k < |Lines(s)|
    ensures a <= e <= |s| && LineStart(s, a) && e == LineEnd(s, a)
    ensures Lines(s)[k] == s[a..e]
  {
    a := LineIsPiece(s, 0, k);
    e := LineEnd(s, a);
  }

  /** A non-empty text without line feeds is one line. */
  lemma LinesSingle(s: string)
    requires s != [] && forall k :: 0 <= k < |s| ==> s[k] != '\n'
    ensures Lines(s) == [s]
  {
    LineEndIs(s, 0, |s|);
    assert s[0..|s|] == s;
  }

  /** One step of LinesFrom: the line at `j`, then the lines after its line
      feed if it has one. */
  lemma LinesFromStep(s: string, j: nat)
    requires j < |s|
    ensures var e := LineEnd(s, j);
            && (e == |s| ==> LinesFrom(s, j) == [s[j..e]])
            && (e < |s| ==> LinesFrom(s, j) == [s[j..e]] + LinesFrom(s, e + 1))
  {
  }

  /** The last line of a text. */
  lemma LinesFromLast(s: string, j: nat, e: nat)
    requires j < |s| && e == |s| && LineEnd(s, j) == e
    ensures LinesFrom(s, j) == [s[j..e]]
  {
  }

  /** A line ended by a line feed, then the lines after it. */
  lemma LinesFromCons(s: string, j: nat, e: nat)
    requires j < |s| && e < |s| && LineEnd(s, j) == e
    ensures LinesFrom(s, j) == [s[j..e]] + LinesFrom(s, e + 1)
  {
  }

  /** Python's `sep.join(ls)`: it starts with the first piece. */
  function Join(ls: seq<string>, sep: string): (r: string)
    ensures |ls| > 0 ==> ls[0] <= r
    decreases |ls|
  {
    if |ls| == 0 then ""
    else if |ls| == 1 then ls[0]
    else
      ls[0] + sep + Join(ls[1..], sep)
  }

  /** No line feed in `s`. */
  ghost predicate OneLine(s: string) {
    forall i :: 0 <= i < |s| ==> s[i] != '\n'
  }

  /** No line feed in any of `ls`. */
  ghost predicate AllOneLine(ls: seq<string>) {
    forall k :: 0 <= k < |ls| ==> OneLine(ls[k])
  }

  lemma AllOneLineTail(ls: seq<string>)
    requires |ls| > 0 && AllOneLine(ls)
    ensures OneLine(ls[0]) && AllOneLine(ls[1..])
  {
    assert forall k :: 0 <= k < |ls| - 1 ==> ls[1..][k] == ls[k + 1];
  }

  /** Splitting the line-feed join of lines that hold no line feed gives the
      lines back, provided the last one is not empty. */
  lemma LinesOfJoin(ls: seq<string>)
    requires AllOneLine(ls)
    requires |ls| > 0 ==> ls[|ls| - 1] != ""
    ensures Lines(Join(ls, "\n")) == ls
  {
    var s := Join(ls, "\n");
    assert s[0..] == s;
    LinesOfJoinFrom(s, 0, ls);
  }

  /** The same, for a join that forms the end of a longer text. */
  lemma {:induction false} LinesOfJoinFrom(s: string, j: nat, ls: seq<string>)
    requires j <= |s| && s[j..] == Join(ls, "\n")
    requires AllOneLine(ls)
    requires |ls| > 0 ==> ls[|ls| - 1] != ""
    ensures LinesFrom(s, j) == ls
    decreases |ls|, 1
  {
    if |ls| == 0 {
      assert |s[j..]| == 0;
    } else if |ls| == 1 {
      AllOneLineTail(ls);
      var e := JoinHead(s, j, ls);
      LinesFromLast(s, j, e);
      assert ls == [ls[0]];
    } else {
      LinesOfLongerJoin(s, j, ls);
    }
  }

  lemma {:induction false} LinesOfLongerJoin(s: string, j: nat, ls: seq<string>)
    requires j <= |s| && s[j..] == Join(ls, "\n")
    requires AllOneLine(ls)
    requires |ls| > 1 && ls[|ls| - 1] != ""
    ensures LinesFrom(s, j) == ls
    decreases |ls|, 0
  {
    AllOneLineTail(ls);
    var e := JoinHead(s, j, ls);
    var rest := ls[1..];
    assert rest[|rest| - 1] == ls[|ls| - 1];
    LinesOfJoinFrom(s, e + 1, rest);
    LinesFromCons(s, j, e);
    assert LinesFrom(s, j) == [ls[0]] + rest;
    assert ls == [ls[0]] + rest;
  }

  /** Where the first line of a join ends, and what follows it. */
  lemma JoinHead(s: string, j: nat, ls: seq<string>) returns (e: nat)
    requires |ls| > 0 && j <= |s| && s[j..] == Join(ls, "\n")
    requires OneLine(ls[0])
    requires ls[|ls| - 1] != ""
    ensures e == j + |ls[0]| && e <= |s| && LineEnd(s, j) == e && s[j..e] == ls[0]
    ensures |ls| == 1 ==> e == |s|
    ensures |ls| > 1 ==> e < |s| && s[e + 1..] == Join(ls[1..], "\n")
  {
    var head := ls[0];
    e := j + |head|;
    var t := s[j..];
    forall k | j <= k < e ensures s[k] != '\n' {
      assert s[k] == t[k - j] == head[k - j];
    }
    if |ls| == 1 {
      LineEndIs(s, j, e);
      assert s[j..e] == t;
    } else {
      var tail := Join(ls[1..], "\n");
      assert t == head + "\n" + tail;
      assert s[e] == t[|head|];
      LineEndIs(s, j, e);
      assert s[j..e] == t[..|head|];
      assert s[e + 1..] == t[|head| + 1..];
    }
  }
}
