/**
 The whole of `deidentify`: arbitration of the detected spans, rendering of
 the redacted report and finalisation of the per-category buckets. The
 library calls (the age search, the pattern searches, the name recogniser
 and the clinician keyword search) are parameters.
 */
module Deid {
  import opened Wrappers
  import opened Spans
  import opened Buckets
  import opened Arbitration
  import opened Render

  /** The result of `deidentify`: the redacted report and the deduplicated buckets. */
  datatype Redaction = Redaction(report: string, entities: map<Category, seq<string>>)

  /**
   Step 4: sorts the accepted spans by descending start and replaces each by
   its placeholder. For spans that are non-empty, inside the text and apart,
   the result is the reference redaction of the sorted spans, and its length
   is that of the text less every span plus every placeholder.
   */
  function ReplaceAll(text: string, rs: seq<Replacement>): (out: string)
    requires PairwiseApart(rs) && AllWithin(rs, |text|)
    ensures Renderable(SortDesc(rs), |text|)
    ensures out == Redacted(text, SortDesc(rs), Placeholder)
    ensures |out| == |text| - Sum(rs, SpanLength) + Sum(rs, PlaceholderLength(Placeholder))
  {
    var d := SortDesc(rs);
    SortDescending(rs);
    SortKeepsApart(rs);
    assert AllWithin(d, |text|) by {
      forall r | r in d ensures Within(r, |text|) {
        assert r in multiset(rs);
      }
    }
    DescendingApartIsChain(d, |text|);
    ApplyAllIsRedacted(text, d, Placeholder);
    RedactedLength(text, d, Placeholder);
    SumSort(rs, SpanLength);
    SumSort(rs, PlaceholderLength(Placeholder));
    ApplyAll(text, d, Placeholder)
  }

  /** Finalising a complete bucket map keeps exactly the placeholder table's keys, each without duplicates. */
  lemma FinalKeys(m: map<Category, seq<string>>)
    requires Complete(m)
    ensures Finalize(m).Keys == AllCategories
    ensures forall c: Category :: c in Finalize(m) && NoDuplicates(Finalize(m)[c])
  {
    forall c: Category ensures c in AllCategories {
      CategoriesAreKeys(c);
    }
  }

  /**
   Redacts `text`. `age` is the first match of the age pattern, `finditer(c)`
   the matches of the pattern of category `c`, `ents` the recogniser's
   entities and `isDoctorContext` the clinician keyword search. Every
   category has a bucket, no bucket repeats a value, the report is the
   redaction of the accepted spans, and those spans never overlap.
   */
  function Deidentify(text: string, age: Option<Match>, finditer: Category -> seq<Match>, ents: seq<Entity>,
                      isDoctorContext: string -> bool): (r: Redaction)
    requires InputsWithin(text, age, finditer, ents)
    ensures r.entities.Keys == AllCategories
    ensures forall c: Category :: c in r.entities && NoDuplicates(r.entities[c])
    ensures var rs := Arbitrate(text, age, finditer, ents, isDoctorContext).replacements;
            && PairwiseApart(rs)
            && AllWithin(rs, |text|)
            && r.report == ReplaceAll(text, rs)
  {
    var acc := Arbitrate(text, age, finditer, ents, isDoctorContext);
    ArbitrateWithin(text, age, finditer, ents, isDoctorContext);
    FinalKeys(acc.buckets);
    Redaction(ReplaceAll(text, acc.replacements), Finalize(acc.buckets))
  }

  /** The buckets of the result are the arbitration's buckets, deduplicated. */
  lemma DeidentifyEntities(text: string, age: Option<Match>, finditer: Category -> seq<Match>, ents: seq<Entity>,
                           isDoctorContext: string -> bool)
    requires InputsWithin(text, age, finditer, ents)
    ensures Deidentify(text, age, finditer, ents, isDoctorContext).entities
            == Finalize(Arbitrate(text, age, finditer, ents, isDoctorContext).buckets)
  {
  }

  /** A finalised bucket holds exactly the values of the accepted spans of its category. */
  lemma FinalBucketValues(acc: Accumulator, c: Category, v: string)
    requires Consistent(acc)
    ensures v in Finalize(acc.buckets)[c] <==> exists x | x in acc.replacements :: x.kind == c && x.value == v
  {
    ValuesOfMembers(acc.replacements, c, v);
  }

  /** Every finalised bucket holds exactly the values of the accepted spans of its category. */
  lemma FinalBucketsValues(acc: Accumulator)
    requires Consistent(acc)
    ensures forall c, v :: v in Finalize(acc.buckets)[c] <==> exists x | x in acc.replacements :: x.kind == c && x.value == v
  {
    forall c, v ensures v in Finalize(acc.buckets)[c] <==> exists x | x in acc.replacements :: x.kind == c && x.value == v {
      FinalBucketValues(acc, c, v);
    }
  }

  /** The finalised Age bucket holds the value of the age match and nothing else. */
  lemma FinalAgeBucket(text: string, age: Option<Match>, finditer: Category -> seq<Match>, ents: seq<Entity>,
                       isDoctorContext: string -> bool)
    requires InputsWithin(text, age, finditer, ents)
    ensures Finalize(Arbitrate(text, age, finditer, ents, isDoctorContext).buckets)[Age]
            == (if age.Some? then [age.value.value] else [])
  {
    var acc := Arbitrate(text, age, finditer, ents, isDoctorContext);
    var rs := acc.replacements;
    ArbitrateShape(text, age, finditer, ents, isDoctorContext);
    if age.Some? {
      ValuesOfOnlyFirst(rs, Age);
      DedupSingle(age.value.value);
    } else {
      ValuesOfAbsent(rs, Age);
    }
  }

  /**
   A bucket holds exactly the values of the accepted spans of its category;
   the Age bucket holds the digits of the age match and nothing else.
   */
  lemma DeidentifyBuckets(text: string, age: Option<Match>, finditer: Category -> seq<Match>, ents: seq<Entity>,
                          isDoctorContext: string -> bool)
    requires InputsWithin(text, age, finditer, ents)
    ensures var r := Deidentify(text, age, finditer, ents, isDoctorContext);
            var rs := Arbitrate(text, age, finditer, ents, isDoctorContext).replacements;
            && (forall c, v :: v in r.entities[c] <==> exists x | x in rs :: x.kind == c && x.value == v)
            && r.entities[Age] == (if age.Some? then [age.value.value] else [])
  {
    var acc := Arbitrate(text, age, finditer, ents, isDoctorContext);
    var entities := Deidentify(text, age, finditer, ents, isDoctorContext).entities;
    DeidentifyEntities(text, age, finditer, ents, isDoctorContext);
    FinalBucketsValues(acc);
    FinalAgeBucket(text, age, finditer, ents, isDoctorContext);
  }

  /**
   Every character outside the spans appears in the rendered text, unchanged,
   at its position moved by the spans that end before it.
   */
  lemma ReplaceAllKeepsOutside(text: string, rs: seq<Replacement>, i: int)
    requires PairwiseApart(rs) && AllWithin(rs, |text|)
    requires 0 <= i < |text| && Uncovered(rs, i)
    ensures var out := ReplaceAll(text, rs);
            && 0 <= i + Shift(rs, i, Placeholder) < |out|
            && out[i + Shift(rs, i, Placeholder)] == text[i]
  {
    var out := ReplaceAll(text, rs);
    ShiftSorted(rs, i, Placeholder);
    PermutedKeepsOutside(text, rs, SortDesc(rs), i, Placeholder);
  }

  /** Two characters outside the spans appear in the rendered text in their original order. */
  lemma ReplaceAllKeepsOrder(text: string, rs: seq<Replacement>, i: int, j: int)
    requires PairwiseApart(rs) && AllWithin(rs, |text|)
    requires 0 <= i < j < |text| && Uncovered(rs, i) && Uncovered(rs, j)
    ensures var out := ReplaceAll(text, rs);
            && 0 <= i + Shift(rs, i, Placeholder) < j + Shift(rs, j, Placeholder) < |out|
            && out[i + Shift(rs, i, Placeholder)] == text[i]
            && out[j + Shift(rs, j, Placeholder)] == text[j]
  {
    ReplaceAllKeepsOutside(text, rs, i);
    ReplaceAllKeepsOutside(text, rs, j);
    var out := ReplaceAll(text, rs);
    ShiftSorted(rs, i, Placeholder);
    ShiftSorted(rs, j, Placeholder);
    PermutedKeepsOrder(text, rs, SortDesc(rs), i, j, Placeholder);
  }

  /**
   Every span is replaced by its category's placeholder, which stands in the
   rendered text at the span's start moved by the spans before it.
   */
  lemma ReplaceAllShowsPlaceholder(text: string, rs: seq<Replacement>, x: Replacement)
    requires PairwiseApart(rs) && AllWithin(rs, |text|)
    requires x in rs
    ensures var out := ReplaceAll(text, rs);
            var p := x.start + Shift(rs, x.start, Placeholder);
            && 0 <= p && p + |Placeholder(x.kind)| <= |out|
            && out[p..p + |Placeholder(x.kind)|] == Placeholder(x.kind)
  {
    var out := ReplaceAll(text, rs);
    ShiftSorted(rs, x.start, Placeholder);
    PermutedShowsPlaceholder(text, rs, SortDesc(rs), x, Placeholder);
  }
}
