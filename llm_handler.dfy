/**
 * The candidate generator: the part of `LLMHandler` that turns the text of a
 * language-model reply into one SQL string, and the fallback that makes
 * `generate_sql` total.  The HTTP exchange itself is a `Reply` value.
 */
module LlmHandler {
  import opened Wrappers
  import opened Text

  /** What one request to the text-generation backend yields: the reply's
      "response" text, or a failure of any kind (connection, HTTP status,
      unreadable body). */
  datatype Reply = Failure | Success(response: string)

  /** The query `generate_sql` returns whenever the backend fails. */
  const Fallback: string := "SELECT 1;"

  /** The word SELECT in any letter case at `p`, followed by a white-space
      character: the `SELECT\s` part of the pattern. */
  predicate SelectAt(s: string, p: nat) {
    p + 7 <= |s| && Upper(s[p..p + 6]) == "SELECT" && IsSpace(s[p + 6])
  }

  /** The pattern `(SELECT\s+.*?;)`, case-insensitive and with `.` matching
      line feeds, matches starting at `p`: SELECT, white space, and some `;`
      further on. */
  predicate MatchAt(s: string, p: nat) {
    SelectAt(s, p) && FindChar(s, ';', p + 7).Some?
  }

  /** The leftmost position at or after `from` where the pattern matches. */
  function FindMatch(s: string, from: nat): (m: Option<nat>)
    requires from <= |s|
    ensures m.Some? ==> from <= m.value && MatchAt(s, m.value)
    ensures m.Some? ==> forall q: nat :: from <= q < m.value ==> !MatchAt(s, q)
    ensures m.None? ==> forall q: nat :: from <= q ==> !MatchAt(s, q)
    decreases |s| - from
  {
    if |s| < from + 7 then None
    else if MatchAt(s, from) then Some(from)
    else FindMatch(s, from + 1)
  }

  /** Where the match at `p` ends: the lazy `.*?` stops at the first `;` after
      the white space (the white space itself holds no `;`). */
  function MatchEnd(s: string, p: nat): (e: nat)
    requires MatchAt(s, p)
    ensures p + 7 <= e < |s| && s[e] == ';'
    ensures forall k :: p + 7 <= k < e ==> s[k] != ';'
  {
    FindChar(s, ';', p + 7).value
  }

  /** `replace('\n', ' ')`: no line feed is left, every other character
      stays where it was, and a text without line feeds is left as it is. */
  function Flatten(s: string): (r: string)
    ensures |r| == |s| && '\n' !in r
    ensures forall i :: 0 <= i < |s| && s[i] != '\n' ==> r[i] == s[i]
    ensures forall i :: 0 <= i < |s| && s[i] == '\n' ==> r[i] == ' '
    ensures '\n' !in s ==> r == s
  {
    var r := seq(|s|, i requires 0 <= i < |s| => if s[i] == '\n' then ' ' else s[i]);
    assert forall i :: 0 <= i < |s| ==> s[i] in s;
    r
  }

  /** `line.strip().upper().startswith("SELECT")`. */
  predicate IsSelectLine(line: string) {
    "SELECT" <= Upper(Strip(line))
  }

  /** The index of the first SELECT line. */
  function FirstSelectLine(lines: seq<string>, from: nat): (r: Option<nat>)
    requires from <= |lines|
    ensures r.Some? ==> from <= r.value < |lines| && IsSelectLine(lines[r.value])
    ensures r.Some? ==> forall k :: from <= k < r.value ==> !IsSelectLine(lines[k])
    ensures r.None? ==> forall k :: from <= k < |lines| ==> !IsSelectLine(lines[k])
    decreases |lines| - from
  {
    if from == |lines| then None
    else if IsSelectLine(lines[from]) then Some(from)
    else FirstSelectLine(lines, from + 1)
  }

  /** `extract_sql_from_response`: the first regex match with its line feeds
      turned into spaces and stripped; failing that the first SELECT line;
      failing that the whole reply, stripped. */
  function ExtractSql(response: string): (r: string)
    ensures r == [] || (!IsSpace(r[0]) && !IsSpace(r[|r| - 1]))
  {
    match FindMatch(response, 0)
    case Some(p) => Strip(Flatten(response[p..MatchEnd(response, p) + 1]))
    case None =>
      var ls := Lines(response);
      match FirstSelectLine(ls, 0)
      case Some(k) => Strip(ls[k])
      case None => Strip(response)
  }

  /** `generate_sql` once the backend has answered: a failure becomes the
      fallback query, a reply is stripped and extracted.  Either way the
      result is a fixed point of the extractor. */
  function GenerateSql(reply: Reply): (sql: string)
    ensures reply.Failure? ==> sql == Fallback
    ensures ExtractSql(sql) == sql
  {
    match reply
    case Failure =>
      FallbackIsFixed();
      Fallback
    case Success(text) =>
      ExtractIdempotent(Strip(text));
      ExtractSql(Strip(text))
  }

  // ---------------------------------------------------------------------
  // What the regex branch returns
  // ---------------------------------------------------------------------

  /** A character whose upper case is a letter is neither white space, nor a
      line feed, nor a semicolon. */
  lemma LetterIsNotSpace(c: char)
    requires 'A' <= UpperChar(c) <= 'Z'
    ensures !IsSpace(c) && c != '\n' && c != ';'
  {
  }

  /** If the reply has a case-insensitive SELECT, then white space, then later
      a `;`, the result is the text from the leftmost such SELECT through the
      first `;` after it, with line feeds turned into spaces (the strip then
      removes nothing). */
  lemma {:induction false} ExtractRegexCase(s: string, p: nat, e: nat)
    requires SelectAt(s, p)
    requires forall q: nat :: q < p ==> !MatchAt(s, q)
    requires p + 7 <= e < |s| && s[e] == ';'
    requires forall k :: p + 7 <= k < e ==> s[k] != ';'
    ensures ExtractSql(s) == Flatten(s[p..e + 1])
  {
    assert MatchAt(s, p);
    var m := FindMatch(s, 0);
    assert m == Some(p);
    assert MatchEnd(s, p) == e;
    MatchIsStripped(s, p);
  }

  /** The flattened match has nothing for `strip()` to remove. */
  lemma MatchIsStripped(s: string, p: nat)
    requires MatchAt(s, p)
    ensures var r := Flatten(s[p..MatchEnd(s, p) + 1]); Strip(r) == r
  {
    var r := Flatten(s[p..MatchEnd(s, p) + 1]);
    FlattenedMatchShape(s, p);
    StripUnique(r, 0, |r|);
  }

  /** The flattened match at `p` starts with SELECT, has white space after it,
      ends with its only `;` past that point, and holds no line feed. */
  lemma FlattenedMatchShape(s: string, p: nat)
    requires MatchAt(s, p)
    ensures var e := MatchEnd(s, p);
            var r := Flatten(s[p..e + 1]);
            && |r| == e + 1 - p && |r| >= 8
            && r[..6] == s[p..p + 6] && Upper(r[..6]) == "SELECT" && IsSpace(r[6])
            && !IsSpace(r[0]) && r[|r| - 1] == ';'
            && (forall k :: 7 <= k < |r| - 1 ==> r[k] != ';')
            && '\n' !in r
  {
    var e := MatchEnd(s, p);
    var m := s[p..e + 1];
    var r := Flatten(m);
    forall i | 0 <= i < 6 ensures r[i] == m[i] && m[i] != '\n' {
      assert UpperChar(m[i]) == Upper(m[..6])[i] == "SELECT"[i];
      LetterIsNotSpace(m[i]);
    }
    assert r[..6] == m[..6] == s[p..p + 6];
    assert UpperChar(r[0]) == 'S';
    LetterIsNotSpace(r[0]);
    forall k | 7 <= k < |r| - 1 ensures r[k] != ';' {
      assert m[k] == s[p + k];
    }
    forall i | 0 <= i < |r| ensures r[i] != '\n' { }
  }

  /** The regex branch always yields a single line that ends with `;` and
      starts with SELECT in some letter case followed by white space. */
  lemma ExtractRegexShape(s: string, p: nat)
    requires MatchAt(s, p)
    ensures var r := ExtractSql(s);
            && '\n' !in r && |r| >= 8 && r[|r| - 1] == ';'
            && Upper(r[..6]) == "SELECT" && IsSpace(r[6])
            && SelectAt(r, 0) && FindChar(r, ';', 7) == Some(|r| - 1)
  {
    var p0 := FindMatch(s, 0).value;
    var e := MatchEnd(s, p0);
    ExtractRegexCase(s, p0, e);
    FlattenedMatchShape(s, p0);
    var r := Flatten(s[p0..e + 1]);
    assert r[0..6] == r[..6];
    assert FindChar(r, ';', 7) == Some(|r| - 1);
  }

  // ---------------------------------------------------------------------
  // The line branches
  // ---------------------------------------------------------------------

  /** Without a regex match, the result is the stripped first SELECT line. */
  lemma ExtractLineCase(s: string, k: nat)
    requires forall q: nat :: !MatchAt(s, q)
    requires k < |Lines(s)| && IsSelectLine(Lines(s)[k])
    requires forall j :: 0 <= j < k ==> !IsSelectLine(Lines(s)[j])
    ensures ExtractSql(s) == Strip(Lines(s)[k])
  {
    var ls := Lines(s);
    var f := FirstSelectLine(ls, 0);
    assert f == Some(k);
  }

  /** Without a regex match and without a SELECT line, the result is the
      stripped reply. */
  lemma ExtractTextCase(s: string)
    requires forall q: nat :: !MatchAt(s, q)
    requires forall k :: 0 <= k < |Lines(s)| ==> !IsSelectLine(Lines(s)[k])
    ensures ExtractSql(s) == Strip(s)
  {
    assert FindMatch(s, 0).None?;
  }

  // ---------------------------------------------------------------------
  // Idempotence
  // ---------------------------------------------------------------------

  /** A match inside a piece of `s` is a match of `s` itself. */
  lemma PieceMatch(s: string, a: nat, b: nat, t: string, q: nat)
    requires a <= b <= |s| && t == s[a..b] && MatchAt(t, q)
    ensures MatchAt(s, a + q)
  {
    var j := FindChar(t, ';', q + 7).value;
    assert s[a + j] == ';';
    var u, v := t[q..q + 6], s[a + q..a + q + 6];
    forall i | 0 <= i < 6 ensures u[i] == v[i] {
      assert t[q + i] == s[a + q + i];
    }
    assert u == v;
    assert t[q + 6] == s[a + q + 6];
  }

  /** Every match inside some line of `s` lifts to a match of `s`. */
  lemma LineMatch(s: string, k: nat, q: nat) returns (q': nat)
    requires k < |Lines(s)| && MatchAt(Lines(s)[k], q)
    ensures MatchAt(s, q')
  {
    var a, e := LineOf(s, k);
    PieceMatch(s, a, e, Lines(s)[k], q);
    q' := a + q;
  }

  /** A match inside a stripped line of `s` is a match of `s`. */
  lemma StrippedLineMatch(s: string, k: nat)
    requires k < |Lines(s)|
    ensures (exists q: nat :: MatchAt(Strip(Lines(s)[k]), q)) ==> (exists q: nat :: MatchAt(s, q))
  {
    if exists q: nat :: MatchAt(Strip(Lines(s)[k]), q) {
      var q: nat :| MatchAt(Strip(Lines(s)[k]), q);
      var line := Lines(s)[k];
      var a, b := StripBounds(line);
      PieceMatch(line, a, b, Strip(line), q);
      var q' := LineMatch(s, k, a + q);
    }
  }

  /** A match inside the stripped text is a match of the text. */
  lemma StrippedMatch(s: string)
    ensures (exists q: nat :: MatchAt(Strip(s), q)) ==> (exists q: nat :: MatchAt(s, q))
  {
    if exists q: nat :: MatchAt(Strip(s), q) {
      var q: nat :| MatchAt(Strip(s), q);
      var a, b := StripBounds(s);
      PieceMatch(s, a, b, Strip(s), q);
    }
  }

  /** Some line of `s` is a SELECT line. */
  ghost predicate HasSelectLine(s: string) {
    exists k :: 0 <= k < |Lines(s)| && IsSelectLine(Lines(s)[k])
  }

  /** The line of `s[a..b]` that starts at `p`, when only white space lies
      outside `s[a..b]`, is the line of `s` starting at `l` with white space
      cut off at one or both ends. */
  lemma LineInsideStrip(s: string, a: nat, b: nat, p: nat) returns (l: nat)
    requires a <= b <= |s| && SpacesBetween(s, 0, a) && SpacesBetween(s, b, |s|)
    requires p < b - a && LineStart(s[a..b], p)
    ensures l < |s| && LineStart(s, l)
    ensures Strip(s[l..LineEnd(s, l)]) == Strip(s[a..b][p..LineEnd(s[a..b], p)])
  {
    var t := s[a..b];
    var e := LineEnd(t, p);
    if p == 0 {
      l := LineStartBefore(s, a);
    } else {
      assert s[a + p - 1] == t[p - 1];
      l := a + p;
    }
    LineEndInsideStrip(s, a, b, p, l);
    StripPaddedPiece(s, l, a + p, a + e, LineEnd(s, l));
    PieceOfPiece(s, a, b, p, e);
  }

  /** Where that line of `s` ends: at the same line feed, or past `b` by
      white space only. */
  lemma LineEndInsideStrip(s: string, a: nat, b: nat, p: nat, l: nat)
    requires a <= b <= |s| && SpacesBetween(s, b, |s|)
    requires p < b - a && l <= a + p
    requires forall k :: l <= k < a + p ==> s[k] != '\n'
    ensures var e := LineEnd(s[a..b], p);
            var f := LineEnd(s, l);
            a + e <= f && SpacesBetween(s, a + e, f)
  {
    var t := s[a..b];
    var e := LineEnd(t, p);
    forall k | a + p <= k < a + e ensures s[k] != '\n' {
      assert s[k] == t[k - a];
    }
    if e < |t| {
      assert s[a + e] == t[e];
      LineEndIs(s, l, a + e);
    } else {
      LineEndAtLeast(s, l, b);
    }
  }

  /** `strip` never hides a SELECT line. */
  lemma SelectLineStrip(s: string)
    ensures HasSelectLine(Strip(s)) ==> HasSelectLine(s)
  {
    if HasSelectLine(Strip(s)) {
      var a, b := StripBounds(s);
      var t := s[a..b];
      var k :| 0 <= k < |Lines(t)| && IsSelectLine(Lines(t)[k]);
      var p := LineIsPiece(t, 0, k);
      var l := LineInsideStrip(s, a, b, p);
      var k' := LineStartIsLine(s, 0, l);
      assert IsSelectLine(Lines(s)[k']);
    }
  }

  /** The fallback query is one regex match from its first character to its
      last. */
  lemma FallbackMatches()
    ensures SelectAt(Fallback, 0) && FindChar(Fallback, ';', 7) == Some(8)
    ensures '\n' !in Fallback
  {
    var s := Fallback;
    assert s[0..6] == "SELECT";
    assert Upper("SELECT") == "SELECT";
  }

  /** A single line that is one regex match from its first character to its
      last reads back as itself. */
  lemma WholeMatchIsFixed(r: string)
    requires SelectAt(r, 0) && FindChar(r, ';', 7) == Some(|r| - 1)
    requires '\n' !in r
    ensures ExtractSql(r) == r
  {
    ExtractRegexCase(r, 0, |r| - 1);
    assert r[0..|r|] == r;
  }

  /** The fallback query reads back as itself. */
  lemma FallbackIsFixed()
    ensures ExtractSql(Fallback) == Fallback
  {
    FallbackMatches();
    WholeMatchIsFixed(Fallback);
  }

  /** Extracting from an extracted query changes nothing. */
  lemma ExtractIdempotent(s: string)
    ensures ExtractSql(ExtractSql(s)) == ExtractSql(s)
  {
    var m := FindMatch(s, 0);
    if m.Some? {
      RegexResultIsFixed(s, m.value);
    } else if FirstSelectLine(Lines(s), 0).Some? {
      LineResultIsFixed(s);
    } else {
      TextResultIsFixed(s);
    }
  }

  lemma RegexResultIsFixed(s: string, p: nat)
    requires FindMatch(s, 0) == Some(p)
    ensures ExtractSql(ExtractSql(s)) == ExtractSql(s)
  {
    ExtractRegexShape(s, p);
    WholeMatchIsFixed(ExtractSql(s));
  }

  lemma LineResultIsFixed(s: string)
    requires FindMatch(s, 0).None?
    requires FirstSelectLine(Lines(s), 0).Some?
    ensures ExtractSql(ExtractSql(s)) == ExtractSql(s)
  {
    var k := FirstSelectLine(Lines(s), 0).value;
    var line := Lines(s)[k];
    var r := Strip(line);
    assert ExtractSql(s) == r;
    StrippedLineMatch(s, k);
    assert FindMatch(r, 0).None?;
    StripIdempotent(line);
    assert OneLine(line);
    var a, b := StripBounds(line);
    assert forall i :: 0 <= i < |r| ==> r[i] == line[a + i];
    SelectLineIsFixed(r);
  }

  /** A stripped SELECT line without a regex match reads back as itself. */
  lemma SelectLineIsFixed(r: string)
    requires FindMatch(r, 0).None? && Strip(r) == r && IsSelectLine(r)
    requires forall i :: 0 <= i < |r| ==> r[i] != '\n'
    ensures ExtractSql(r) == r
  {
    LinesSingle(r);
    assert FirstSelectLine(Lines(r), 0) == Some(0);
  }

  lemma TextResultIsFixed(s: string)
    requires FindMatch(s, 0).None?
    requires FirstSelectLine(Lines(s), 0).None?
    ensures ExtractSql(ExtractSql(s)) == ExtractSql(s)
  {
    var r := Strip(s);
    StrippedMatch(s);
    assert FindMatch(r, 0).None?;
    SelectLineStrip(s);
    assert !HasSelectLine(s);
    assert FirstSelectLine(Lines(r), 0).None?;
    StripIdempotent(s);
  }
}
