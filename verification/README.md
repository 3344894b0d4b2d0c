# PHI de-identification core, modelled in Dafny

This project models `PHIDeidentifier.deidentify` from `deid_service.py`, together with the
placeholder table and the pattern order that `__init__` sets up. The method redacts protected
health information from a clinical report in four steps:

1. an age pre-pass accepts the first age match unconditionally;
2. the structured patterns run in a fixed order (SSN, MRN, Accession, Email, PhoneNo, Date,
   Address, Doctor), and each match is kept only if it overlaps no span accepted so far;
3. the recogniser's PERSON entities are filtered the same way, and each surviving one is
   classified as Doctor or Name from a window of 25 characters on each side;
4. the accepted spans are sorted by descending start and spliced out, each replaced by its
   category's placeholder; the per-category buckets of extracted values are then deduplicated.

The library calls are inputs to the model:

- the age search is an `Option<Match>`;
- the pattern searches are a function `finditer: Category -> seq<Match>`;
- the recogniser's entities are a `seq<Entity>`;
- the clinician keyword search is a predicate `isDoctorContext: string -> bool` on the window text.

Modules, leaves first:

- `Wrappers`: the `Option` type.
- `Spans`: categories, placeholders, the pattern order, replacement spans and the overlap test.
- `Buckets`: bucket maps, the values of the accepted spans, and deduplication.
- `Context`: the context window and the clinician/patient classification.
- `Arbitration`: the age pre-pass and the overlap-filtered accumulation, all of it one left fold
  (`OfferAll`) over the candidates in precedence order.
- `Render`: the descending sort, the splice loop (`ApplyAll`), and an independent recursive
  description of the redacted text (`Redacted`).
- `Deid`: the whole method.

Three details of `deidentify` that the model keeps:

- The keyword test uses word boundaries around `Dr.`, `M.D.`, `physician` and `attending`.
  It is not a plain "contains" test: `\bDr\.\b` needs a word character right after the dot.
  The model therefore keeps the test abstract.
- Each person entity is classified only after it passes the overlap test and the PERSON-label
  test, not before arbitration. Classification is stateless, so the outcome is the same.
  `Arbitration.AcceptEntitiesIsOfferAll` proves this.
- Each pattern match is checked against every span accepted so far, including earlier matches of
  the same pattern. Matches of one pattern are not assumed to be apart from each other.

## Model

| member | source | states |
|---|---|---|
| Spans.CategoriesAreKeys | deid_service.py:14-39 | every category is a key of the placeholder table; the pattern order covers every key except Name and Age |
| Spans.Placeholder | deid_service.py:28-39 | each category's placeholder is its table key tagged as redacted, `[Deid: <key>]` |
| Spans.PlaceholdersDistinct | deid_service.py:28-39 | two categories have the same placeholder only if they are the same category, so a placeholder in the report names its category |
| Spans.AppendKeepsApart | deid_service.py:60-68 | appending a candidate that overlaps no accepted span keeps all accepted spans pairwise apart |
| Buckets.EmptyBuckets | deid_service.py:42 | the result map starts with every category as a key, each with an empty bucket |
| Buckets.ValuesOfMembers | deid_service.py:47-91 | a value is in a category's bucket iff some accepted span of that category recorded it |
| Buckets.Dedup | deid_service.py:100 | a deduplicated bucket has no repeated value, holds exactly the values of the original bucket, and is no longer than it |
| Buckets.DedupOfDistinct | deid_service.py:100 | deduplicating a bucket that has no repeats keeps exactly its values, each once (only their order may change) |
| Buckets.Finalize | deid_service.py:99-100 | finalisation keeps every key; each final bucket has no duplicates and the same elements as before |
| Context.Window | deid_service.py:78-79 | the window lies in the text and contains the entity; on each side it extends exactly 25 characters, or to the end of the text when that is closer |
| Context.Classify | deid_service.py:80-83 | the category is Doctor or Name; it is Doctor iff the keyword test holds on the window text |
| Context.ClassifyIsLocal | deid_service.py:78-83 | two texts, of any lengths, that give the entity the same window and agree on it classify the entity the same way |
| Context.ClassifyIgnoresFarSuffix | deid_service.py:78-83 | text appended more than 25 characters after the entity leaves its category unchanged |
| Arbitration.Offer | deid_service.py:60-69 | an overlapping candidate is dropped whole; any other is appended with its offsets unchanged; the accumulator invariant holds afterwards (spans pairwise apart, every bucket equal to its accepted values) |
| Arbitration.AgePrepass | deid_service.py:46-55 | with an age match, the only accepted span is the age span and its digits are in the Age bucket; without one, nothing is accepted |
| Arbitration.OfferAll | deid_service.py:58-69 | offering a list of candidates keeps the invariant; the accepted list only grows, by at most one span per candidate |
| Arbitration.AcceptMatches | deid_service.py:59-69 | offering the matches of one pattern, in the order found, keeps the accumulator invariant (spans pairwise apart, buckets equal to the accepted values); `Arbitration.AcceptPatternsIsOfferAll` relates it to the fold |
| Arbitration.AcceptPatterns | deid_service.py:58-69 | running the patterns one category after another keeps the accumulator invariant |
| Arbitration.OfferAllFresh | deid_service.py:63-68 | every span the fold appends is one of the offered candidates |
| Arbitration.OfferAllCovers | deid_service.py:60-61 | a candidate that was not accepted overlaps a span that was |
| Arbitration.OfferAllConcat | deid_service.py:58-59 | offering two lists one after the other equals offering their concatenation |
| Arbitration.PatternCandidatesMembers | deid_service.py:58-65 | the structured candidates are exactly the matches of each pattern in the order, tagged with that pattern's category |
| Arbitration.AcceptPatternsIsOfferAll | deid_service.py:57-69 | running the patterns one category after another equals one fold over all their candidates in pattern order |
| Arbitration.StepEntity | deid_service.py:73-91 | an entity changes the accumulator iff it is labelled PERSON and overlaps nothing accepted; a non-PERSON entity changes nothing; an accepted one is appended as its classified replacement |
| Arbitration.PersonCandidatesMembers | deid_service.py:76-91 | the person candidates are exactly the classified replacements of the entities labelled PERSON |
| Arbitration.AcceptEntities | deid_service.py:73-91 | the entity loop keeps the accumulator invariant; `Arbitration.AcceptEntitiesIsOfferAll` relates it to the fold |
| Arbitration.AcceptEntitiesIsOfferAll | deid_service.py:73-91 | testing overlap before the label, as the entity loop does, accepts the same spans as offering only the classified PERSON entities |
| Arbitration.Arbitrate | deid_service.py:45-91 | steps 1 to 3 together keep the accumulator invariant: the accepted spans are pairwise apart and every bucket holds exactly their values |
| Arbitration.ArbitrateIsOfferAll | deid_service.py:45-91 | steps 1 to 3 are one fold from the age pre-pass over the pattern candidates followed by the person candidates |
| Arbitration.CandidateShape | deid_service.py:58-91 | every pattern or person candidate is a non-empty span of the text, and none has category Age |
| Arbitration.ArbitrateShape | deid_service.py:45-91 | accepted spans lie in the text; an age match is the first accepted span and the only one of category Age; every candidate overlaps some accepted span |
| Arbitration.StructuredWins | deid_service.py:57-91 | the spans accepted in steps 1-2 stay, in order, at the head of the final list; every later span is a person candidate apart from all of them |
| Arbitration.AgePrecedence | deid_service.py:46-61 | an age match is the first accepted span, and no later accepted span overlaps it |
| Arbitration.PersonEntities | deid_service.py:77 | the filtered entities are exactly those labelled PERSON |
| Arbitration.PersonCandidatesOfPersons | deid_service.py:77 | dropping the non-PERSON entities leaves the person candidates unchanged |
| Arbitration.OnlyPersonsContribute | deid_service.py:73-91 | dropping every non-PERSON entity leaves both the accepted spans and the buckets unchanged |
| Render.Insert | deid_service.py:94 | insertion adds exactly one element: the result is a permutation of the list plus the new span |
| Render.InsertDescending | deid_service.py:94 | insertion keeps a list in descending order of start |
| Render.SortDesc | deid_service.py:94 | the sorted list is a permutation of the accepted spans |
| Render.SortDescending | deid_service.py:94 | the sorted list is in descending order of start |
| Render.SortKeepsApart | deid_service.py:94 | sorting keeps the spans pairwise apart |
| Render.SumSort | deid_service.py:94 | any sum over the spans is the same before and after sorting |
| Render.DescendingApartIsChain | deid_service.py:94-97 | spans that are non-empty, apart and sorted by descending start each end no later than every earlier one starts, so the offsets still to be processed stay valid |
| Render.ApplyAll | deid_service.py:95-97 | the splice loop's output is the text length, less every span length, plus every placeholder length; `Render.ApplyAllIsRedacted` equates it with the reference redaction |
| Render.ApplyAllIsRedacted | deid_service.py:95-97 | the splice loop over a chain of spans produces the reference redaction: the redacted prefix, then the placeholder, then the untouched suffix |
| Render.RedactedLength | deid_service.py:95-97 | the redacted length is the text length, less every span length, plus every placeholder length |
| Render.RedactedKeepsOutside | deid_service.py:95-97 | a character outside every span survives unchanged, at its index moved by the length changes of the spans that end before it |
| Render.RedactedKeepsOrder | deid_service.py:95-97 | two characters outside every span keep their relative order |
| Render.RedactedShowsPlaceholder | deid_service.py:95-97 | each span's placeholder stands at the span's start moved by the spans before it |
| Render.ShiftSorted | deid_service.py:94 | sorting does not change how far any index moves |
| Deid.ReplaceAll | deid_service.py:93-97 | for spans apart and in the text, the sorted list is renderable; the output is the reference redaction of the sorted spans; the length formula holds over the unsorted list |
| Deid.Deidentify | deid_service.py:41-102 | the buckets have exactly the ten placeholder keys and no duplicates; the accepted spans are pairwise apart and in the text; the report is their redaction |
| Deid.FinalBucketValues | deid_service.py:99-100 | a final bucket holds exactly the values of the accepted spans of its category |
| Deid.FinalAgeBucket | deid_service.py:46-55 | the final Age bucket is the age match's digits when there is a match, and empty otherwise |
| Deid.DeidentifyBuckets | deid_service.py:42-100 | in the result, a value is in a category's bucket iff an accepted span of that category carries it; the Age bucket holds only the age digits |
| Deid.ReplaceAllKeepsOutside | deid_service.py:93-97 | in the report, every character outside every span appears unchanged at its position moved by the spans that end before it |
| Deid.ReplaceAllKeepsOrder | deid_service.py:93-97 | in the report, any two characters outside every span appear unchanged and in their original order |
| Deid.ReplaceAllShowsPlaceholder | deid_service.py:93-97 | in the report, every accepted span's placeholder stands at its shifted start |

## Left out

- Loading the NLP model, downloading it, and running the recogniser (deid_service.py:5-12, 72) are external. The recogniser's entities are an input.
- Regular-expression semantics are not modelled: the patterns, the age search, case-insensitive matching, word boundaries and backtracking (deid_service.py:14-26, 46, 59, 82). The matches are an input, and so is the clinician keyword test, as a predicate on the window text.
- Each match's extracted value is an input field, so `group(1) if lastindex else group(0)` (deid_service.py:62) is not modelled. This includes the case where the PhoneNo pattern matches through its second alternative, where that expression yields `None` rather than a string.
- Arbitration.InputsWithin: every match and entity is assumed to be a non-empty span inside the text. None of the patterns can match the empty string, and recogniser entities are non-empty.
- Buckets.Dedup: keeps the first occurrence of each value, one representative of the unspecified order of Python's `list(set(...))` (deid_service.py:100). The contracts about a bucket state only which values it holds, that none repeats, and, for a bucket without repeats, its multiset of values; they never fix an order, except that a bucket of one value is that value.
- The `"text"` field of each replacement record (deid_service.py:50, 64, 86) is never read by the rest of the method. A `Replacement` carries the bucket value instead.
- `app.py` (HTTP transport, JSON and error mapping) and `script-based-execution.py` (file reading and printing) are I/O around the core and are not part of this model.
- Determinism needs no statement of its own, because every member is a pure function of its inputs.
