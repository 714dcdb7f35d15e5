/** Normalised terms: folding, the length bound with its digest, and de-duplication within one
    occurrence. Character classes, case folding and the digest are parameters. */
module WordForms {
  import opened Options
  import opened Bytes

  /** `fold` gives the encoded scalars a character folds to. `digest` is the term that stands for a
      folding too long to keep. */
  datatype Unicode = Unicode(
    alphanumeric: char -> bool,
    upper: char -> bool,
    lower: char -> bool,
    fold: char -> seq<seq<byte>>,
    digest: seq<byte> -> seq<byte>)

  /** What is used of Unicode: no character is of both cases, and the underscore is of neither. */
  ghost predicate Sane(u: Unicode) {
    && (forall c :: !(u.upper(c) && u.lower(c)))
    && !u.upper('_') && !u.lower('_')
  }

  type Term = seq<byte>

  const MAX_TERM_BYTES := 256

  /** The complete folding of a text. */
  function Folded(u: Unicode, text: seq<char>): seq<byte> {
    if text == [] then [] else Folded(u, text[..|text| - 1]) + Concat(u.fold(text[|text| - 1]))
  }

  function TermOf(u: Unicode, text: seq<char>): Term {
    var folded := Folded(u, text);
    if |folded| <= MAX_TERM_BYTES then folded else u.digest(folded)
  }

  // ---------------------------------------------------------------- accumulating a form

  /** A digest under way is the bytes it has absorbed. */
  datatype Form = Inline(bytes: seq<byte>) | Digest(absorbed: seq<byte>)

  const EMPTY_FORM := Inline([])

  function PushBytes(form: Form, bytes: seq<byte>): Form {
    match form
    case Inline(existing) =>
      if |existing| + |bytes| <= MAX_TERM_BYTES then Inline(existing + bytes) else Digest(existing + bytes)
    case Digest(absorbed) => Digest(absorbed + bytes)
  }

  method PushChar(u: Unicode, form: Form, c: char) returns (form': Form)
    ensures forall text :: form == FormOf(u, text) ==> form' == FormOf(u, text + [c])
  {
    form' := form;
    var scalars := u.fold(c);
    ghost var start := Absorbed(form);
    for i := 0 to |scalars|
      invariant form == Settled(start) ==> form' == Settled(start + Concat(scalars[..i]))
    {
      ConcatPush(scalars[..i], scalars[i]);
      assert scalars[..i + 1] == scalars[..i] + [scalars[i]];
      assert start + (Concat(scalars[..i]) + scalars[i]) == start + Concat(scalars[..i]) + scalars[i];
      form' := PushBytes(form', scalars[i]);
    }
    assert scalars[..|scalars|] == scalars;
    forall text | form == FormOf(u, text)
      ensures form' == FormOf(u, text + [c])
    {
      assert (text + [c])[..|text|] == text;
    }
  }

  function FinishForm(u: Unicode, form: Form): Term {
    match form
    case Inline(bytes) => bytes
    case Digest(absorbed) => u.digest(absorbed)
  }

  function Absorbed(form: Form): seq<byte> {
    if form.Inline? then form.bytes else form.absorbed
  }

  function Settled(bytes: seq<byte>): Form {
    if |bytes| <= MAX_TERM_BYTES then Inline(bytes) else Digest(bytes)
  }

  /** The form reached by pushing a text: its spelling is kept exactly as long as it fits. */
  function FormOf(u: Unicode, text: seq<char>): Form {
    Settled(Folded(u, text))
  }

  lemma FinishedFormIsTerm(u: Unicode, text: seq<char>)
    ensures FinishForm(u, FormOf(u, text)) == TermOf(u, text)
  {}

  // ---------------------------------------------------------------- first occurrences

  function FirstOccurrences<T(==)>(xs: seq<T>): seq<T> {
    if xs == [] then []
    else
      var front, x := xs[..|xs| - 1], xs[|xs| - 1];
      if x in front then FirstOccurrences(front) else FirstOccurrences(front) + [x]
  }

  lemma FirstOccurrencesPush<T>(xs: seq<T>, x: T)
    ensures FirstOccurrences(xs + [x]) == if x in xs then FirstOccurrences(xs) else FirstOccurrences(xs) + [x]
  {
    assert (xs + [x])[..|xs|] == xs;
  }

  lemma {:induction false} FirstOccurrencesKeepsAll<T>(xs: seq<T>)
    ensures forall x :: x in FirstOccurrences(xs) <==> x in xs
    ensures forall i, j :: 0 <= i < j < |FirstOccurrences(xs)| ==> FirstOccurrences(xs)[i] != FirstOccurrences(xs)[j]
  {
    if xs != [] {
      var front, x := xs[..|xs| - 1], xs[|xs| - 1];
      FirstOccurrencesKeepsAll(front);
      assert xs == front + [x];
    }
  }

  const MAX_DEDUP_FORMS := 4096

  /** A bounded list in memory that moves to a set on disk once it is full. */
  class FormDeduper {
    var forms: seq<Term>
    var spill: Option<set<Term>>
    ghost var inserted: seq<Term>

    ghost predicate Valid()
      reads this
    {
      && |forms| <= MAX_DEDUP_FORMS
      && (spill.Some? ==> forms == [])
      && (forall f :: f in inserted <==> f in forms || (spill.Some? && f in spill.value))
    }

    constructor ()
      ensures Valid() && inserted == []
    {
      forms, spill, inserted := [], None, [];
    }

    method Insert(form: Term) returns (isNew: bool)
      requires Valid()
      modifies this
      ensures Valid() && inserted == old(inserted) + [form]
      ensures isNew <==> form !in old(inserted)
      ensures FirstOccurrences(inserted) == FirstOccurrences(old(inserted)) + if isNew then [form] else []
    {
      FirstOccurrencesPush(inserted, form);
      inserted := inserted + [form];
      if spill.Some? {
        isNew := form !in spill.value;
        spill := Some(spill.value + {form});
        return;
      }
      if form in forms {
        return false;
      }
      if |forms| >= MAX_DEDUP_FORMS {
        spill := Some((set f | f in forms) + {form});
        forms := [];
        return true;
      }
      forms := forms + [form];
      isNew := true;
    }
  }
}
