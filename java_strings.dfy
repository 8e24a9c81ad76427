/** The few java.lang.String operations the generators rely on, over `seq<char>`. */
module JavaStrings {

  import opened Wrappers

  /** The four characters the trailing-blank scan of removeTrailingDelimiter drops. */
  predicate IsTrailingBlank(c: char) {
    c == ' ' || c == '\n' || c == '\r' || c == '\t'
  }

  /** `s.endsWith(suffix)`. */
  predicate EndsWith(s: string, suffix: string) {
    |suffix| <= |s| && s[|s| - |suffix|..] == suffix
  }

  /** `sub` stands in `s` starting at index `i`. */
  predicate OccursAt(s: string, sub: string, i: int) {
    0 <= i && i + |sub| <= |s| && s[i..i + |sub|] == sub
  }

  /** `s.contains(sub)`. */
  predicate Contains(s: string, sub: string) {
    exists i :: 0 <= i <= |s| - |sub| && OccursAt(s, sub, i)
  }

  /**
   * `s.replace(target, replacement)`: every occurrence of `target`, taken from the
   * left without overlap, is replaced.
   */
  function Replace(s: string, target: string, replacement: string): string
    requires target != []
    decreases |s|
  {
    if |s| < |target| then s
    else if s[..|target|] == target then replacement + Replace(s[|target|..], target, replacement)
    else [s[0]] + Replace(s[1..], target, replacement)
  }

  /** Replacing a target that does not occur changes nothing. */
  lemma {:induction false} ReplaceAbsent(s: string, target: string, replacement: string)
    requires target != []
    requires !Contains(s, target)
    ensures Replace(s, target, replacement) == s
    decreases |s|
  {
    if |s| >= |target| {
      assert s[0..0 + |target|] == s[..|target|];
      assert !OccursAt(s, target, 0);
      forall i | 0 <= i
        ensures !OccursAt(s[1..], target, i)
      {
        if i + |target| <= |s[1..]| {
          assert s[1..][i..i + |target|] == s[i + 1..i + 1 + |target|];
          assert !OccursAt(s, target, i + 1);
        }
      }
      ReplaceAbsent(s[1..], target, replacement);
    }
  }

  /** `Character.toLowerCase`, restricted to ASCII letters. */
  function LowerChar(c: char): char {
    if 'A' <= c <= 'Z' then (c as int + 32) as char else c
  }

  /** `s.toLowerCase()`, restricted to ASCII letters. */
  function ToLower(s: string): string {
    seq(|s|, i requires 0 <= i < |s| => LowerChar(s[i]))
  }

  /** `a.equalsIgnoreCase(b)`, restricted to ASCII letters. */
  predicate EqualsIgnoreCase(a: string, b: string) {
    ToLower(a) == ToLower(b)
  }

  /** Lower-casing works character by character, so it distributes over concatenation. */
  lemma ToLowerAppend(a: string, b: string)
    ensures ToLower(a + b) == ToLower(a) + ToLower(b)
  {
    assert forall i :: 0 <= i < |a + b| ==> ToLower(a + b)[i] == (ToLower(a) + ToLower(b))[i];
  }

  /** Every character is at or below U+0020, the ones `String.trim` removes. */
  predicate IsBlank(s: string) {
    forall i :: 0 <= i < |s| ==> s[i] <= ' '
  }

  /** `StringUtils.trimToNull(s) != null`: `s` is non-null and not blank. */
  predicate HasText(s: Option<string>) {
    s.Some? && !IsBlank(s.value)
  }

  /** The pieces between the dots of `s`, empty ones included: one more than there are dots. */
  function DotPieces(s: string): (r: seq<string>)
    ensures |r| >= 1
    decreases |s|
  {
    if s == [] then [[]]
    else if s[0] == '.' then [[]] + DotPieces(s[1..])
    else
      var rest := DotPieces(s[1..]);
      [[s[0]] + rest[0]] + rest[1..]
  }

  /** Drops the empty pieces at the end of a split, as `String.split` with limit 0 does. */
  function DropTrailingEmpty(ps: seq<string>): (r: seq<string>)
    ensures r <= ps
    ensures r == [] || r[|r| - 1] != []
    ensures forall i :: |r| <= i < |ps| ==> ps[i] == []
  {
    if ps != [] && ps[|ps| - 1] == [] then DropTrailingEmpty(ps[..|ps| - 1]) else ps
  }

  /**
   * `s.split("\\.")`: a string without a dot is its own single piece (so "" gives [""]);
   * otherwise the pieces between the dots, with trailing empty pieces removed.
   */
  function SplitOnDots(s: string): seq<string> {
    if '.' !in s then [s] else DropTrailingEmpty(DotPieces(s))
  }

  lemma {:induction false} DotPiecesNoDot(s: string)
    requires '.' !in s
    ensures DotPieces(s) == [s]
    decreases |s|
  {
    if s != [] {
      assert '.' !in s[1..] by {
        forall i | 0 <= i < |s[1..]| ensures s[1..][i] != '.' { assert s[1..][i] == s[i + 1]; }
      }
      DotPiecesNoDot(s[1..]);
      assert [s[0]] + s[1..] == s;
    }
  }

  lemma {:induction false} DotPiecesAfterPiece(a: string, rest: string)
    requires '.' !in a
    ensures DotPieces(a + "." + rest) == [a] + DotPieces(rest)
    decreases |a|
  {
    var s := a + "." + rest;
    if a == [] {
      assert s == "." + rest;
      assert s[1..] == rest;
    } else {
      assert s[0] == a[0];
      assert s[1..] == a[1..] + "." + rest;
      assert '.' !in a[1..] by {
        forall i | 0 <= i < |a[1..]| ensures a[1..][i] != '.' { assert a[1..][i] == a[i + 1]; }
      }
      DotPiecesAfterPiece(a[1..], rest);
      assert [a[0]] + a[1..] == a;
    }
  }

  /** The pieces joined with dots in between: the inverse of splitting on dots. */
  function JoinWithDots(ps: seq<string>): string
    requires |ps| >= 1
  {
    if |ps| == 1 then ps[0] else ps[0] + "." + JoinWithDots(ps[1..])
  }

  lemma {:induction false} DotPiecesJoin(ps: seq<string>)
    requires |ps| >= 1
    requires forall i :: 0 <= i < |ps| ==> '.' !in ps[i]
    ensures DotPieces(JoinWithDots(ps)) == ps
  {
    if |ps| == 1 {
      DotPiecesNoDot(ps[0]);
    } else {
      DotPiecesJoin(ps[1..]);
      DotPiecesAfterPiece(ps[0], JoinWithDots(ps[1..]));
      assert [ps[0]] + ps[1..] == ps;
    }
  }

  /**
   * Splitting dot-free pieces, joined with dots, gives the pieces back, provided the
   * last one is not empty (split drops trailing empty pieces) or there is only one.
   */
  lemma SplitJoinRoundTrip(ps: seq<string>)
    requires |ps| >= 1
    requires forall i :: 0 <= i < |ps| ==> '.' !in ps[i]
    requires |ps| == 1 || ps[|ps| - 1] != []
    ensures SplitOnDots(JoinWithDots(ps)) == ps
  {
    DotPiecesJoin(ps);
    if |ps| > 1 {
      assert JoinWithDots(ps)[|ps[0]|] == '.';
    }
  }
}
