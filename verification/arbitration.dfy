/**
 The span arbitration of `deidentify`: the age pre-pass, then the structured
 patterns in their fixed order, then the person entities of the name
 recogniser. Every stage offers candidates one at a time to an accumulator
 that accepts a candidate only when it overlaps no span accepted so far, and
 records the accepted value in the bucket of its category.

 The pattern matches, the age match and the recogniser's entities come from
 library calls (the regular-expression engine and the NLP pipeline) and are
 inputs here.
 */
module Arbitration {
  import opened Wrappers
  import opened Spans
  import opened Buckets
  import opened Context

  /** One match of a pattern: its span and the value it extracts (the capturing group, or the whole match). */
  datatype Match = Match(start: int, end: int, value: string)

  /** One entity of the name recogniser: its character span and its label. */
  datatype Entity = Entity(start: int, end: int, entityLabel: string)

  /** The only recogniser label this core acts on. */
  const PersonLabel: string := "PERSON"

  /** The list of accepted replacements and the result buckets, as they are built up. */
  datatype Accumulator = Accumulator(replacements: seq<Replacement>, buckets: map<Category, seq<string>>)

  /**
   The invariant of the accumulator: every category has a bucket, no two
   accepted spans overlap, and each bucket holds exactly the values of the
   accepted spans of its category, in acceptance order.
   */
  predicate Consistent(acc: Accumulator)
  {
    && Complete(acc.buckets)
    && PairwiseApart(acc.replacements)
    && forall c :: acc.buckets[c] == ValuesOf(acc.replacements, c)
  }

  function AsReplacement(m: Match, kind: Category): Replacement
  {
    Replacement(m.start, m.end, kind, m.value)
  }

  /** Unconditionally records `r`: appended to the list, its value appended to its bucket. */
  function Append(acc: Accumulator, r: Replacement): Accumulator
    requires Complete(acc.buckets)
  {
    Accumulator(acc.replacements + [r], acc.buckets[r.kind := acc.buckets[r.kind] + [r.value]])
  }

  /**
   Offers one candidate: it is dropped whole when it overlaps any span
   accepted so far, and otherwise appended with its offsets unchanged.
   */
  function Offer(acc: Accumulator, r: Replacement): (o: Accumulator)
    requires Consistent(acc)
    ensures Consistent(o)
    ensures OverlapsAny(r.start, r.end, acc.replacements) ==> o == acc
    ensures !OverlapsAny(r.start, r.end, acc.replacements) ==> o.replacements == acc.replacements + [r]
  {
    if OverlapsAny(r.start, r.end, acc.replacements) then acc
    else
      AppendKeepsApart(acc.replacements, r);
      var o := Append(acc, r);
      assert forall c :: o.buckets[c] == ValuesOf(o.replacements, c) by {
        forall c ensures o.buckets[c] == ValuesOf(o.replacements, c) {
          ValuesOfAppend(acc.replacements, r, c);
        }
      }
      o
  }

  /**
   The age pre-pass: the first age match, if any, is accepted without any
   overlap test and its digits go to the Age bucket.
   */
  function AgePrepass(age: Option<Match>): (o: Accumulator)
    ensures Consistent(o)
    ensures age.None? ==> o.replacements == []
    ensures age.Some? ==> o.replacements == [AsReplacement(age.value, Age)]
    ensures age.Some? ==> age.value.value in o.buckets[Age]
  {
    var empty := Accumulator([], EmptyBuckets());
    match age
    case None => empty
    case Some(m) =>
      var o := Append(empty, AsReplacement(m, Age));
      assert forall c :: o.buckets[c] == ValuesOf(o.replacements, c) by {
        forall c ensures o.buckets[c] == ValuesOf(o.replacements, c) {
          ValuesOfAppend([], AsReplacement(m, Age), c);
        }
      }
      o
  }

  /**
   Offers candidates one after another, each checked against the whole list
   accepted so far (including candidates of the same list accepted a moment
   earlier). The list only grows: spans accepted earlier are never touched.
   */
  function OfferAll(acc: Accumulator, cs: seq<Replacement>): (o: Accumulator)
    requires Consistent(acc)
    ensures Consistent(o)
    ensures acc.replacements <= o.replacements
    ensures |o.replacements| <= |acc.replacements| + |cs|
    decreases |cs|
  {
    if cs == [] then acc else OfferAll(Offer(acc, cs[0]), cs[1..])
  }

  /** Every span the fold adds is one of the candidates, offsets and category unchanged. */
  lemma {:induction false} OfferAllFresh(acc: Accumulator, cs: seq<Replacement>)
    requires Consistent(acc)
    ensures var o := OfferAll(acc, cs);
            forall i | |acc.replacements| <= i < |o.replacements| :: o.replacements[i] in cs
    decreases |cs|
  {
    if cs != [] {
      var next := Offer(acc, cs[0]);
      OfferAllFresh(next, cs[1..]);
      var o := OfferAll(acc, cs);
      assert o == OfferAll(next, cs[1..]);
      forall i | |acc.replacements| <= i < |o.replacements| ensures o.replacements[i] in cs {
        if i < |next.replacements| {
          assert o.replacements[i] == next.replacements[i] == cs[0];
        } else {
          assert o.replacements[i] in cs[1..];
        }
      }
    }
  }

  /** A candidate the fold leaves out overlaps a span it accepted. */
  lemma {:induction false} OfferAllCovers(acc: Accumulator, cs: seq<Replacement>)
    requires Consistent(acc)
    ensures var o := OfferAll(acc, cs);
            forall r | r in cs && r !in o.replacements :: OverlapsAny(r.start, r.end, o.replacements)
    decreases |cs|
  {
    if cs != [] {
      var next := Offer(acc, cs[0]);
      OfferAllCovers(next, cs[1..]);
      var o := OfferAll(acc, cs);
      assert o == OfferAll(next, cs[1..]);
      forall r | r in cs ensures r in o.replacements || OverlapsAny(r.start, r.end, o.replacements) {
        if r == cs[0] {
          if OverlapsAny(r.start, r.end, acc.replacements) {
            OverlapsAnyGrows(r.start, r.end, acc.replacements, o.replacements);
          } else {
            assert next.replacements[|acc.replacements|] == r;
            assert next.replacements <= o.replacements;
            assert o.replacements[|acc.replacements|] == r;
          }
        } else {
          assert r in cs[1..];
        }
      }
    }
  }

  /** Offering two lists in turn is the same as offering their concatenation. */
  lemma {:induction false} OfferAllConcat(acc: Accumulator, xs: seq<Replacement>, ys: seq<Replacement>)
    requires Consistent(acc)
    ensures OfferAll(OfferAll(acc, xs), ys) == OfferAll(acc, xs + ys)
    decreases |xs|
  {
    if xs == [] {
      assert xs + ys == ys;
    } else {
      var next := Offer(acc, xs[0]);
      var zs := xs + ys;
      assert zs[0] == xs[0] && zs[1..] == xs[1..] + ys;
      OfferAllConcat(next, xs[1..], ys);
      assert OfferAll(acc, xs) == OfferAll(next, xs[1..]);
      assert OfferAll(acc, zs) == OfferAll(next, zs[1..]);
    }
  }

  /** A span overlapping something in a list still overlaps something in any extension of it. */
  lemma OverlapsAnyGrows(start: int, end: int, rs: seq<Replacement>, more: seq<Replacement>)
    requires rs <= more
    requires OverlapsAny(start, end, rs)
    ensures OverlapsAny(start, end, more)
  {
    var r :| r in rs && Overlaps(start, end, r);
    assert r in more;
  }

  /** The replacements the matches of one pattern would become, in the order they were found. */
  function MatchCandidates(kind: Category, ms: seq<Match>): (cs: seq<Replacement>)
    ensures |cs| == |ms|
    ensures forall i | 0 <= i < |ms| :: cs[i] == AsReplacement(ms[i], kind)
  {
    seq(|ms|, i requires 0 <= i < |ms| => AsReplacement(ms[i], kind))
  }

  /** All matches of one pattern, in the order the regular-expression engine reports them. */
  function AcceptMatches(acc: Accumulator, kind: Category, ms: seq<Match>): (o: Accumulator)
    requires Consistent(acc)
    ensures Consistent(o)
  {
    OfferAll(acc, MatchCandidates(kind, ms))
  }

  /** The candidates of the structured patterns, pattern after pattern in the given order. */
  function PatternCandidates(order: seq<Category>, finditer: Category -> seq<Match>): (cs: seq<Replacement>)
    ensures forall r | r in cs :: r.kind in order
    decreases |order|
  {
    if order == [] then []
    else
      var rest := PatternCandidates(order[1..], finditer);
      assert forall r | r in rest :: r.kind in order;
      MatchCandidates(order[0], finditer(order[0])) + rest
  }

  /** A structured candidate is exactly the replacement of a match of the pattern of its category. */
  lemma {:induction false} PatternCandidatesMembers(order: seq<Category>, finditer: Category -> seq<Match>, r: Replacement)
    ensures r in PatternCandidates(order, finditer) <==>
            r.kind in order && exists m | m in finditer(r.kind) :: r == AsReplacement(m, r.kind)
    decreases |order|
  {
    if order != [] {
      PatternCandidatesMembers(order[1..], finditer, r);
      var here := MatchCandidates(order[0], finditer(order[0]));
      if r in here {
        var i :| 0 <= i < |here| && here[i] == r;
        assert finditer(order[0])[i] in finditer(r.kind);
      }
    }
  }

  /** The structured patterns, one category after another in the given order. */
  function AcceptPatterns(acc: Accumulator, order: seq<Category>, finditer: Category -> seq<Match>): (o: Accumulator)
    requires Consistent(acc)
    ensures Consistent(o)
    decreases |order|
  {
    if order == [] then acc
    else AcceptPatterns(AcceptMatches(acc, order[0], finditer(order[0])), order[1..], finditer)
  }

  /** Running the patterns one by one is one fold over all their candidates in pattern order. */
  lemma {:induction false} AcceptPatternsIsOfferAll(acc: Accumulator, order: seq<Category>, finditer: Category -> seq<Match>)
    requires Consistent(acc)
    ensures AcceptPatterns(acc, order, finditer) == OfferAll(acc, PatternCandidates(order, finditer))
    decreases |order|
  {
    if order != [] {
      var here := MatchCandidates(order[0], finditer(order[0]));
      AcceptPatternsIsOfferAll(OfferAll(acc, here), order[1..], finditer);
      OfferAllConcat(acc, here, PatternCandidates(order[1..], finditer));
    }
  }

  /** The replacement a person entity becomes: its span, its disambiguated category and its text. */
  function PersonReplacement(text: string, e: Entity, isDoctorContext: string -> bool): Replacement
    requires InText(e.start, e.end, |text|)
  {
    Replacement(e.start, e.end, Classify(text, e.start, e.end, isDoctorContext), text[e.start..e.end])
  }

  /**
   One entity of the recogniser: ignored when it overlaps an accepted span
   or is not labelled as a person; otherwise classified by its context and
   accepted.
   */
  function StepEntity(acc: Accumulator, text: string, e: Entity, isDoctorContext: string -> bool): (o: Accumulator)
    requires Consistent(acc)
    requires InText(e.start, e.end, |text|)
    ensures Consistent(o)
    ensures e.entityLabel != PersonLabel ==> o == acc
    ensures o != acc <==> e.entityLabel == PersonLabel && !OverlapsAny(e.start, e.end, acc.replacements)
    ensures o != acc ==> o.replacements == acc.replacements + [PersonReplacement(text, e, isDoctorContext)]
  {
    if OverlapsAny(e.start, e.end, acc.replacements) then acc
    else if e.entityLabel != PersonLabel then acc
    else Offer(acc, PersonReplacement(text, e, isDoctorContext))
  }

  /** The replacements the recogniser's person entities would become, in the order it reports them. */
  function PersonCandidates(text: string, ents: seq<Entity>, isDoctorContext: string -> bool): (cs: seq<Replacement>)
    requires forall e | e in ents :: InText(e.start, e.end, |text|)
    ensures forall r | r in cs :: (r.kind == Doctor || r.kind == Name) && Within(r, |text|)
    decreases |ents|
  {
    if ents == [] then []
    else
      var head := if ents[0].entityLabel == PersonLabel then [PersonReplacement(text, ents[0], isDoctorContext)] else [];
      head + PersonCandidates(text, ents[1..], isDoctorContext)
  }

  /** The person candidates are exactly the replacements of the entities labelled as persons. */
  lemma {:induction false} PersonCandidatesMembers(text: string, ents: seq<Entity>, isDoctorContext: string -> bool, r: Replacement)
    requires forall e | e in ents :: InText(e.start, e.end, |text|)
    ensures r in PersonCandidates(text, ents, isDoctorContext) <==>
            exists e | e in ents && e.entityLabel == PersonLabel :: r == PersonReplacement(text, e, isDoctorContext)
    decreases |ents|
  {
    if ents != [] {
      PersonCandidatesMembers(text, ents[1..], isDoctorContext, r);
      assert forall e | e in ents :: e == ents[0] || e in ents[1..];
      assert forall e | e in ents[1..] :: e in ents;
    }
  }

  /** The recogniser's entities, in the order it reports them. */
  function AcceptEntities(acc: Accumulator, text: string, ents: seq<Entity>, isDoctorContext: string -> bool): (o: Accumulator)
    requires Consistent(acc)
    requires forall e | e in ents :: InText(e.start, e.end, |text|)
    ensures Consistent(o)
    decreases |ents|
  {
    if ents == [] then acc
    else AcceptEntities(StepEntity(acc, text, ents[0], isDoctorContext), text, ents[1..], isDoctorContext)
  }

  /**
   Testing the overlap before the label, as the entity loop does, accepts
   the same spans as dropping the non-person entities first and offering
   the rest.
   */
  lemma {:induction false} AcceptEntitiesIsOfferAll(acc: Accumulator, text: string, ents: seq<Entity>, isDoctorContext: string -> bool)
    requires Consistent(acc)
    requires forall e | e in ents :: InText(e.start, e.end, |text|)
    ensures AcceptEntities(acc, text, ents, isDoctorContext) == OfferAll(acc, PersonCandidates(text, ents, isDoctorContext))
    decreases |ents|
  {
    if ents != [] {
      var next := StepEntity(acc, text, ents[0], isDoctorContext);
      AcceptEntitiesIsOfferAll(next, text, ents[1..], isDoctorContext);
      var rest := PersonCandidates(text, ents[1..], isDoctorContext);
      if ents[0].entityLabel == PersonLabel {
        var r := PersonReplacement(text, ents[0], isDoctorContext);
        assert PersonCandidates(text, ents, isDoctorContext) == [r] + rest;
        assert next == Offer(acc, r);
        OfferAllConcat(acc, [r], rest);
      } else {
        assert PersonCandidates(text, ents, isDoctorContext) == rest;
      }
    }
  }

  /** The inputs the library calls guarantee: every match and entity is a non-empty span of the text. */
  predicate InputsWithin(text: string, age: Option<Match>, finditer: Category -> seq<Match>, ents: seq<Entity>)
  {
    && (age.Some? ==> InText(age.value.start, age.value.end, |text|))
    && (forall c, m | m in finditer(c) :: InText(m.start, m.end, |text|))
    && (forall e | e in ents :: InText(e.start, e.end, |text|))
  }

  /** Steps 1 to 3 of `deidentify`: everything that decides which spans are redacted. */
  function Arbitrate(text: string, age: Option<Match>, finditer: Category -> seq<Match>, ents: seq<Entity>,
                     isDoctorContext: string -> bool): (o: Accumulator)
    requires InputsWithin(text, age, finditer, ents)
    ensures Consistent(o)
  {
    var structured := AcceptPatterns(AgePrepass(age), PatternOrder, finditer);
    AcceptEntities(structured, text, ents, isDoctorContext)
  }

  /** All candidates of steps 2 and 3 in the order they are offered: patterns first, then person entities. */
  function Candidates(text: string, finditer: Category -> seq<Match>, ents: seq<Entity>, isDoctorContext: string -> bool): seq<Replacement>
    requires forall e | e in ents :: InText(e.start, e.end, |text|)
  {
    PatternCandidates(PatternOrder, finditer) + PersonCandidates(text, ents, isDoctorContext)
  }

  /**
   The whole arbitration is one left fold: after the age pre-pass, every
   candidate is offered in precedence order, structured patterns before the
   recogniser's persons.
   */
  lemma ArbitrateIsOfferAll(text: string, age: Option<Match>, finditer: Category -> seq<Match>, ents: seq<Entity>,
                            isDoctorContext: string -> bool)
    requires InputsWithin(text, age, finditer, ents)
    ensures Arbitrate(text, age, finditer, ents, isDoctorContext)
            == OfferAll(AgePrepass(age), Candidates(text, finditer, ents, isDoctorContext))
  {
    var pre := AgePrepass(age);
    AcceptPatternsIsOfferAll(pre, PatternOrder, finditer);
    var structured := AcceptPatterns(pre, PatternOrder, finditer);
    AcceptEntitiesIsOfferAll(structured, text, ents, isDoctorContext);
    OfferAllConcat(pre, PatternCandidates(PatternOrder, finditer), PersonCandidates(text, ents, isDoctorContext));
  }

  /** A candidate of steps 2 and 3 is a non-empty span of the text that never carries category Age. */
  lemma CandidateShape(text: string, age: Option<Match>, finditer: Category -> seq<Match>, ents: seq<Entity>,
                       isDoctorContext: string -> bool, r: Replacement)
    requires InputsWithin(text, age, finditer, ents)
    requires r in Candidates(text, finditer, ents, isDoctorContext)
    ensures Within(r, |text|) && r.kind != Age
  {
    if r in PatternCandidates(PatternOrder, finditer) {
      PatternCandidatesMembers(PatternOrder, finditer, r);
      CategoriesAreKeys(r.kind);
      var m :| m in finditer(r.kind) && r == AsReplacement(m, r.kind);
      assert InText(m.start, m.end, |text|);
    }
  }

  /**
   The accepted spans all lie in the text; the age match, when there is one,
   is the first of them and the only one of category Age; and every pattern
   match and every person entity overlaps some accepted span (its own, when
   it was accepted), so nothing a detector found is left wholly in the clear.
   */
  lemma ArbitrateShape(text: string, age: Option<Match>, finditer: Category -> seq<Match>, ents: seq<Entity>,
                       isDoctorContext: string -> bool)
    requires InputsWithin(text, age, finditer, ents)
    ensures var rs := Arbitrate(text, age, finditer, ents, isDoctorContext).replacements;
            && AllWithin(rs, |text|)
            && (age.Some? ==> |rs| > 0 && rs[0] == AsReplacement(age.value, Age))
            && (forall i | 0 <= i < |rs| && rs[i].kind == Age :: i == 0 && age.Some?)
            && (forall r | r in Candidates(text, finditer, ents, isDoctorContext) :: OverlapsAny(r.start, r.end, rs))
  {
    var pre := AgePrepass(age);
    var cs := Candidates(text, finditer, ents, isDoctorContext);
    ArbitrateIsOfferAll(text, age, finditer, ents, isDoctorContext);
    OfferAllFresh(pre, cs);
    OfferAllCovers(pre, cs);
    var rs := OfferAll(pre, cs).replacements;
    forall i | 0 <= i < |rs|
      ensures Within(rs[i], |text|) && (rs[i].kind == Age ==> i == 0 && age.Some?)
    {
      if i < |pre.replacements| {
        assert rs[i] == pre.replacements[i];
      } else {
        CandidateShape(text, age, finditer, ents, isDoctorContext, rs[i]);
      }
    }
    forall r | r in cs ensures OverlapsAny(r.start, r.end, rs) {
      CandidateShape(text, age, finditer, ents, isDoctorContext, r);
      if r in rs {
        assert Overlaps(r.start, r.end, r);
      }
    }
  }

  /** The accepted spans are non-empty spans of the text, pairwise apart. */
  lemma ArbitrateWithin(text: string, age: Option<Match>, finditer: Category -> seq<Match>, ents: seq<Entity>,
                        isDoctorContext: string -> bool)
    requires InputsWithin(text, age, finditer, ents)
    ensures var rs := Arbitrate(text, age, finditer, ents, isDoctorContext).replacements;
            PairwiseApart(rs) && AllWithin(rs, |text|)
  {
    ArbitrateShape(text, age, finditer, ents, isDoctorContext);
  }

  /**
   Structured spans take precedence over the recogniser: the spans accepted
   by steps 1 and 2 stay, in order, at the head of the final list, and every
   span after them is a person candidate apart from all of them.
   */
  lemma StructuredWins(text: string, age: Option<Match>, finditer: Category -> seq<Match>, ents: seq<Entity>,
                       isDoctorContext: string -> bool)
    requires InputsWithin(text, age, finditer, ents)
    ensures var s := AcceptPatterns(AgePrepass(age), PatternOrder, finditer).replacements;
            var rs := Arbitrate(text, age, finditer, ents, isDoctorContext).replacements;
            && s <= rs
            && forall i | |s| <= i < |rs| ::
                 rs[i] in PersonCandidates(text, ents, isDoctorContext) && forall j | 0 <= j < |s| :: Apart(s[j], rs[i])
  {
    var structured := AcceptPatterns(AgePrepass(age), PatternOrder, finditer);
    AcceptEntitiesIsOfferAll(structured, text, ents, isDoctorContext);
    OfferAllFresh(structured, PersonCandidates(text, ents, isDoctorContext));
  }

  /**
   The age match wins over everything found later: no accepted span after
   it overlaps it, so no pattern match or person entity touching the age
   is redacted under another category.
   */
  lemma AgePrecedence(text: string, age: Option<Match>, finditer: Category -> seq<Match>, ents: seq<Entity>,
                      isDoctorContext: string -> bool)
    requires InputsWithin(text, age, finditer, ents)
    requires age.Some?
    ensures var rs := Arbitrate(text, age, finditer, ents, isDoctorContext).replacements;
            && |rs| > 0 && rs[0] == AsReplacement(age.value, Age)
            && forall i | 0 < i < |rs| :: !Overlaps(age.value.start, age.value.end, rs[i])
  {
    ArbitrateShape(text, age, finditer, ents, isDoctorContext);
  }

  /** The entities the recogniser labels as persons, in the order it reports them. */
  function PersonEntities(ents: seq<Entity>): (ps: seq<Entity>)
    ensures forall e :: e in ps <==> e in ents && e.entityLabel == PersonLabel
    decreases |ents|
  {
    if ents == [] then []
    else
      var rest := PersonEntities(ents[1..]);
      assert forall e | e in ents :: e == ents[0] || e in ents[1..];
      if ents[0].entityLabel == PersonLabel then [ents[0]] + rest else rest
  }

  lemma {:induction false} PersonCandidatesOfPersons(text: string, ents: seq<Entity>, isDoctorContext: string -> bool)
    requires forall e | e in ents :: InText(e.start, e.end, |text|)
    ensures PersonCandidates(text, PersonEntities(ents), isDoctorContext) == PersonCandidates(text, ents, isDoctorContext)
    decreases |ents|
  {
    if ents != [] {
      PersonCandidatesOfPersons(text, ents[1..], isDoctorContext);
      var ps := PersonEntities(ents);
      if ents[0].entityLabel == PersonLabel {
        assert ps[1..] == PersonEntities(ents[1..]);
      }
    }
  }

  /**
   Only person entities contribute: dropping every entity with another label
   leaves the accepted spans and the buckets exactly as they were.
   */
  lemma OnlyPersonsContribute(text: string, age: Option<Match>, finditer: Category -> seq<Match>, ents: seq<Entity>,
                              isDoctorContext: string -> bool)
    requires InputsWithin(text, age, finditer, ents)
    ensures InputsWithin(text, age, finditer, PersonEntities(ents))
    ensures Arbitrate(text, age, finditer, PersonEntities(ents), isDoctorContext)
            == Arbitrate(text, age, finditer, ents, isDoctorContext)
  {
    var ps := PersonEntities(ents);
    ArbitrateIsOfferAll(text, age, finditer, ents, isDoctorContext);
    ArbitrateIsOfferAll(text, age, finditer, ps, isDoctorContext);
    PersonCandidatesOfPersons(text, ents, isDoctorContext);
  }
}
