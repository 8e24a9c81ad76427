/**
 * Parsed SQL as liquibase.util.StringClauses presents it to the generators: an
 * ordered list of clause strings whose concatenation is the text, walked by a
 * ClauseIterator that can skip whitespace and overwrite the clause it returned last.
 * The tokenizer itself (SqlParser) is not part of this model.
 */
module Clauses {

  import opened Wrappers
  import opened JavaStrings

  /** `StringClauses.toString()`: the clauses joined as they are. */
  function Concat(cs: seq<string>): string {
    if cs == [] then "" else cs[0] + Concat(cs[1..])
  }

  lemma {:induction false} ConcatAppend(a: seq<string>, b: seq<string>)
    ensures Concat(a + b) == Concat(a) + Concat(b)
  {
    if a == [] {
      assert a + b == b;
    } else {
      assert (a + b)[1..] == a[1..] + b;
      ConcatAppend(a[1..], b);
    }
  }

  /** Overwriting clause `j` changes the text only where that clause stood. */
  lemma ConcatReplace(cs: seq<string>, j: nat, v: string)
    requires j < |cs|
    ensures Concat(cs) == Concat(cs[..j]) + cs[j] + Concat(cs[j + 1..])
    ensures Concat(cs[j := v]) == Concat(cs[..j]) + v + Concat(cs[j + 1..])
  {
    assert cs == cs[..j] + ([cs[j]] + cs[j + 1..]);
    assert cs[j := v] == cs[..j] + ([v] + cs[j + 1..]);
    assert Concat([cs[j]] + cs[j + 1..]) == cs[j] + Concat(cs[j + 1..]);
    assert Concat([v] + cs[j + 1..]) == v + Concat(cs[j + 1..]);
    ConcatAppend(cs[..j], [cs[j]] + cs[j + 1..]);
    ConcatAppend(cs[..j], [v] + cs[j + 1..]);
  }

  /**
   * A clause the iterator's nextNonWhitespace steps over, taken to be one made only of
   * space, tab, LF and CR (the same characters the delimiter trim drops).
   */
  predicate IsWhitespaceClause(c: string) {
    forall i :: 0 <= i < |c| ==> IsTrailingBlank(c[i])
  }

  /** What the generators look for while walking the clauses. */
  datatype ClauseTest = AnyClause | WordIgnoringCase(word: string) | CreateOrAlter

  predicate Passes(t: ClauseTest, c: string) {
    match t
    case AnyClause => true
    case WordIgnoringCase(w) => EqualsIgnoreCase(c, w)
    case CreateOrAlter => EqualsIgnoreCase(c, "create") || EqualsIgnoreCase(c, "alter")
  }

  /** The first non-whitespace clause at or after `from` that passes `t`, if any. */
  function FirstFrom(cs: seq<string>, from: nat, t: ClauseTest): (r: Option<nat>)
    ensures r.Some? ==> from <= r.value < |cs| && !IsWhitespaceClause(cs[r.value]) && Passes(t, cs[r.value])
    ensures forall j :: from <= j < |cs| && (r.None? || j < r.value) ==> IsWhitespaceClause(cs[j]) || !Passes(t, cs[j])
    decreases |cs| - from
  {
    if from >= |cs| then None
    else if !IsWhitespaceClause(cs[from]) && Passes(t, cs[from]) then Some(from)
    else FirstFrom(cs, from + 1, t)
  }

  /** The clauses of a parse that drops whitespace: the non-whitespace ones. */
  function Significant(cs: seq<string>): (r: seq<string>)
    ensures forall c :: c in r <==> c in cs && !IsWhitespaceClause(c)
  {
    if cs == [] then []
    else (if IsWhitespaceClause(cs[0]) then [] else [cs[0]]) + Significant(cs[1..])
  }

  /** A parsed body: the clause list SqlParser.parse returns. */
  class StringClauses {
    var clauses: seq<string>

    constructor (cs: seq<string>)
      ensures clauses == cs
    {
      clauses := cs;
    }

    function ToString(): string
      reads this
    {
      Concat(clauses)
    }
  }

  /**
   * `StringClauses.ClauseIterator`. `cursor` is the index of the clause `next()`
   * would return; the clause returned last, which `replace` overwrites, is the one
   * just before it.
   */
  class ClauseIterator {
    const source: StringClauses
    var cursor: nat

    ghost predicate Valid()
      reads this, source
    {
      cursor <= |source.clauses|
    }

    constructor (s: StringClauses)
      ensures source == s && cursor == 0
    {
      source := s;
      cursor := 0;
    }

    predicate HasNext()
      reads this, source
    {
      cursor < |source.clauses|
    }

    /**
     * Returns the next clause that is not whitespace, or None (null) when only
     * whitespace is left; in both cases the clauses stepped over count as returned.
     */
    method NextNonWhitespace() returns (c: Option<string>)
      requires HasNext()
      modifies this
      ensures Valid() && cursor > old(cursor)
      ensures match FirstFrom(source.clauses, old(cursor), AnyClause)
              case Some(j) => c == Some(source.clauses[j]) && cursor == j + 1
              case None => c == None && cursor == |source.clauses|
    {
      var k := cursor;
      while k < |source.clauses| && IsWhitespaceClause(source.clauses[k])
        invariant old(cursor) <= k <= |source.clauses|
        invariant forall j :: old(cursor) <= j < k ==> IsWhitespaceClause(source.clauses[j])
        decreases |source.clauses| - k
      {
        k := k + 1;
      }
      if k < |source.clauses| {
        c := Some(source.clauses[k]);
        cursor := k + 1;
      } else {
        c := None;
        cursor := k;
      }
    }

    /** `replace(v)`: overwrites the clause returned last; before any, there is none to overwrite. */
    method Replace(v: string)
      requires Valid()
      modifies source
      ensures source.clauses == if cursor == 0 then old(source.clauses) else old(source.clauses)[cursor - 1 := v]
    {
      if cursor > 0 {
        source.clauses := source.clauses[cursor - 1 := v];
      }
    }
  }
}
