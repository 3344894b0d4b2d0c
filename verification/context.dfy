/**
 Disambiguation of a person entity into a clinician or a patient name by
 looking at the text around it. The keyword test itself (a case-insensitive
 search for "Dr.", "M.D.", "physician" or "attending" between word
 boundaries) is a regular-expression search and is passed in as a predicate
 on the window's text.
 */
module Context {
  import opened Spans

  /**
   The window `[lo, hi)` around the entity `[start, end)`: up to
   `ContextRadius` characters on each side, clipped to the text of length `n`.
   */
  function Window(n: int, start: int, end: int): (w: (int, int))
    requires InText(start, end, n)
    ensures 0 <= w.0 <= start && end <= w.1 <= n
    ensures start - w.0 <= ContextRadius && (w.0 == 0 || start - w.0 == ContextRadius)
    ensures w.1 - end <= ContextRadius && (w.1 == n || w.1 - end == ContextRadius)
  {
    var lo := if start - ContextRadius > 0 then start - ContextRadius else 0;
    var hi := if end + ContextRadius < n then end + ContextRadius else n;
    (lo, hi)
  }

  /** The text of the window around `[start, end)`. */
  function WindowText(text: string, start: int, end: int): (ctx: string)
    requires 0 <= start < end <= |text|
  {
    var w := Window(|text|, start, end);
    text[w.0..w.1]
  }

  /**
   The category of a person entity: a clinician when the keyword test holds
   on its window, a patient name otherwise.
   */
  function Classify(text: string, start: int, end: int, isDoctorContext: string -> bool): (c: Category)
    requires 0 <= start < end <= |text|
    ensures c == Doctor || c == Name
    ensures c == Doctor <==> isDoctorContext(WindowText(text, start, end))
  {
    if isDoctorContext(WindowText(text, start, end)) then Doctor else Name
  }

  /**
   The classification depends on nothing but the window: two texts that
   give the entity the same window and agree on it give the same category,
   whatever they hold elsewhere and however long they are.
   */
  lemma ClassifyIsLocal(t1: string, t2: string, start: int, end: int, isDoctorContext: string -> bool)
    requires 0 <= start < end <= |t1| && end <= |t2|
    requires Window(|t1|, start, end) == Window(|t2|, start, end)
    requires forall i | Window(|t1|, start, end).0 <= i < Window(|t1|, start, end).1 :: t1[i] == t2[i]
    ensures Classify(t1, start, end, isDoctorContext) == Classify(t2, start, end, isDoctorContext)
  {
    var w := Window(|t1|, start, end);
    assert t1[w.0..w.1] == t2[w.0..w.1];
  }

  /**
   Text appended more than `ContextRadius` characters after the entity does
   not change its category.
   */
  lemma ClassifyIgnoresFarSuffix(text: string, extra: string, start: int, end: int, isDoctorContext: string -> bool)
    requires 0 <= start < end && end + ContextRadius <= |text|
    ensures Classify(text + extra, start, end, isDoctorContext) == Classify(text, start, end, isDoctorContext)
  {
    ClassifyIsLocal(text, text + extra, start, end, isDoctorContext);
  }
}
