/** Reading the free-text `Dependencies` column the way `GanttCalculator`
    does: split on commas, strip each term, and read the concatenation of
    all digits of a term as one predecessor id. Relation codes (FS, SS, ...)
    and lags are not interpreted: "3SS+2" names task 32. */
module Dependencies {
  import opened Base
  import opened Text

  /** The predecessor id a single comma-separated term names, if any: the
      value of all its digits read together. */
  function TermId(term: string): Option<nat> {
    var ds := Digits(term);
    if ds != [] then Some(DecimalValue(ds)) else None
  }

  /** The term handling as written in `_get_latest_dependency_finish`:
      strip the term, skip it when empty, keep its digits, skip it when there
      are none. */
  function StrippedTermId(term: string): Option<nat> {
    var t := Strip(StrBlanks, term);
    if t != [] then
      var ds := Digits(t);
      if ds != [] then Some(DecimalValue(ds)) else None
    else None
  }

  /** Stripping first changes nothing: white space holds no digits. */
  lemma StrippedTermIdIsTermId(term: string)
    ensures StrippedTermId(term) == TermId(term)
  {
    StripKeepsDigits(StrBlanks, term);
  }

  /** The ids the terms name, term by term, in order. */
  function IdsOfTerms(terms: seq<string>): (ids: seq<nat>)
    ensures |ids| <= |terms|
    decreases |terms|
  {
    if terms == [] then []
    else
      match TermId(terms[0])
      case Some(x) => [x] + IdsOfTerms(terms[1..])
      case None => IdsOfTerms(terms[1..])
  }

  /** Some term of the list names id `x`. */
  predicate SomeTermNames(terms: seq<string>, x: nat) {
    exists k :: 0 <= k < |terms| && TermId(terms[k]) == Some(x)
  }

  /** An id is read from the terms exactly when some term names it. */
  lemma {:induction false} IdsOfTermsMembers(terms: seq<string>)
    ensures forall x :: x in IdsOfTerms(terms) <==> SomeTermNames(terms, x)
    decreases |terms|
  {
    if terms != [] {
      IdsOfTermsMembers(terms[1..]);
      assert forall k :: 1 <= k < |terms| ==> terms[k] == terms[1..][k - 1];
    }
  }

  /** The predecessor ids of a dependency text, term by term, in order
      (the parse inside `_get_latest_dependency_finish` and `_forward_pass`). */
  function ParseDependencyIds(deps: string): (ids: seq<nat>)
    ensures |ids| <= |Split(deps, ',')|
  {
    IdsOfTerms(Split(deps, ','))
  }

  /** An id is a predecessor exactly when one comma-separated term of the
      text names it. */
  lemma ParseDependencyIdsMembers(deps: string)
    ensures forall x :: x in ParseDependencyIds(deps) <==> SomeTermNames(Split(deps, ','), x)
  {
    IdsOfTermsMembers(Split(deps, ','));
  }

  lemma {:induction false} DigitsOfJoin(pieces: seq<string>, sep: char)
    requires !IsDigit(sep)
    ensures Digits(Join(pieces, sep)) == [] <==> forall k :: 0 <= k < |pieces| ==> Digits(pieces[k]) == []
    decreases |pieces|
  {
    if |pieces| > 1 {
      DigitsOfJoin(pieces[1..], sep);
      DigitsConcat(pieces[0] + [sep], Join(pieces[1..], sep));
      DigitsConcat(pieces[0], [sep]);
      assert forall k :: 1 <= k < |pieces| ==> pieces[k] == pieces[1..][k - 1];
    }
  }

  lemma NoIdsIffNoTermId(terms: seq<string>)
    ensures IdsOfTerms(terms) == [] <==> forall k :: 0 <= k < |terms| ==> TermId(terms[k]).None?
  {
    var ids := IdsOfTerms(terms);
    IdsOfTermsMembers(terms);
    if ids != [] {
      assert ids[0] in ids;
    }
    if exists k :: 0 <= k < |terms| && TermId(terms[k]).Some? {
      var k :| 0 <= k < |terms| && TermId(terms[k]).Some?;
      assert TermId(terms[k]).value in ids;
    }
  }

  /** A dependency text names no predecessor exactly when it holds no digit. */
  lemma {:induction false} NoIdsIffNoDigits(deps: string)
    ensures ParseDependencyIds(deps) == [] <==> Digits(deps) == []
  {
    var pieces := Split(deps, ',');
    JoinSplit(deps, ',');
    DigitsOfJoin(pieces, ',');
    NoIdsIffNoTermId(pieces);
  }

  /** The decimal renderings of some ids, as terms. */
  function RenderIds(ids: seq<nat>): (terms: seq<string>)
    ensures |terms| == |ids|
    ensures forall k :: 0 <= k < |terms| ==> terms[k] == NatToString(ids[k])
    decreases |ids|
  {
    if ids == [] then [] else [NatToString(ids[0])] + RenderIds(ids[1..])
  }

  lemma TermIdOfNatToString(n: nat)
    ensures TermId(NatToString(n)) == Some(n)
  {
    DecimalValueOfNatToString(n);
  }

  lemma {:induction false} IdsOfRenderedIds(ids: seq<nat>)
    ensures IdsOfTerms(RenderIds(ids)) == ids
    decreases |ids|
  {
    if ids != [] {
      IdsOfRenderedIds(ids[1..]);
      TermIdOfNatToString(ids[0]);
      assert RenderIds(ids)[1..] == RenderIds(ids[1..]);
    }
  }

  /** Writing ids as "4,5,..." and parsing the text gives the ids back, in order. */
  lemma ParseRenderedIds(ids: seq<nat>)
    ensures ParseDependencyIds(Join(RenderIds(ids), ',')) == ids
  {
    var terms := RenderIds(ids);
    if ids == [] {
      assert Join(terms, ',') == [];
    } else {
      forall k | 0 <= k < |terms|
        ensures ',' !in terms[k]
      {
        assert AllDigits(terms[k]);
      }
      SplitJoin(terms, ',');
      IdsOfRenderedIds(ids);
    }
  }

  /** `[table[id].field for id in ids if id in table]`: the ids that resolve
      against an already computed table, in order, projected on one field. */
  function Lookup<V, W>(ids: seq<nat>, table: map<nat, V>, field: V -> W): (r: seq<W>)
    ensures |r| <= |ids|
    decreases |ids|
  {
    if ids == [] then []
    else if ids[0] in table then [field(table[ids[0]])] + Lookup(ids[1..], table, field)
    else Lookup(ids[1..], table, field)
  }

  /** The lookup is empty exactly when no id resolves; it holds the field
      of every id that resolves, and nothing else. */
  lemma {:induction false} LookupSpec<V, W>(ids: seq<nat>, table: map<nat, V>, field: V -> W)
    ensures var r := Lookup(ids, table, field);
            r == [] <==> forall i :: 0 <= i < |ids| ==> ids[i] !in table
    ensures var r := Lookup(ids, table, field);
            forall i :: 0 <= i < |ids| && ids[i] in table ==> field(table[ids[i]]) in r
    ensures var r := Lookup(ids, table, field);
            forall w :: w in r ==> exists i :: 0 <= i < |ids| && ids[i] in table && field(table[ids[i]]) == w
    decreases |ids|
  {
    if ids != [] {
      LookupSpec(ids[1..], table, field);
      assert forall i :: 1 <= i < |ids| ==> ids[i] == ids[1..][i - 1];
    }
  }
}
