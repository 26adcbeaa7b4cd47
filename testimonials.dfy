/**
 * The testimonials section: the list shown in the carousel (five built-in
 * testimonials followed by the approved ones from storage), publishing a
 * submitted testimonial, deleting by id, and the carousel position.
 */
module Testimonials {
  import opened Wrappers
  import opened JsString
  import opened Storage
  import TestimonialForm
  import Modular

  /**
   * A built-in testimonial: no id, date, message or approval; a photo, a
   * text, five stars. All its texts lie in the Basic Multilingual Plane.
   */
  function Builtin(name: string, role: string, image: string, text: string, treatment: string): (t: Testimonial)
    ensures t.id == None && t.rating == 5 && !t.canDelete
  {
    Testimonial(None, BmpUnits(name), BmpUnits(role), 5, BmpUnits(treatment), None, Some(BmpUnits(text)), Some(BmpUnits(image)), None, None, false)
  }

  /** The texts of a built-in testimonial: name, role, photo, text, treatment. */
  datatype BuiltinTexts = BuiltinTexts(name: string, role: string, image: string, text: string, treatment: string)

  /** The texts of the `i`-th entry of `defaultTestimonials`. */
  function BuiltinTextsAt(i: nat): BuiltinTexts
    requires i < 5
  {
    match i
    case 0 =>
      BuiltinTexts("Maria Silva", "Executiva",
        "https://images.pexels.com/photos/774909/pexels-photo-774909.jpeg?auto=compress&cs=tinysrgb&w=150&h=150&fit=crop",
        "Uma experiência transformadora! O atendimento é impecável e os tratamentos são de altíssima qualidade. Saí renovada e com uma sensação de bem-estar indescritível.",
        "Day Spa Completo")
    case 1 =>
      BuiltinTexts("Ana Costa", "Empresária",
        "https://images.pexels.com/photos/1239291/pexels-photo-1239291.jpeg?auto=compress&cs=tinysrgb&w=150&h=150&fit=crop",
        "O La Vie Esbella é meu refúgio pessoal. Cada visita é uma jornada de relaxamento profundo. A equipe é extremamente profissional e o ambiente é simplesmente perfeito.",
        "Massagem com Pedras Quentes")
    case 2 =>
      BuiltinTexts("Carla Mendes", "Médica",
        "https://images.pexels.com/photos/1181686/pexels-photo-1181686.jpeg?auto=compress&cs=tinysrgb&w=150&h=150&fit=crop",
        "Recomendo de olhos fechados! Os tratamentos faciais são excepcionais e os resultados são visíveis desde a primeira sessão. Um verdadeiro oásis de tranquilidade.",
        "Tratamento Facial Premium")
    case 3 =>
      BuiltinTexts("Juliana Santos", "Advogada",
        "https://images.pexels.com/photos/1181690/pexels-photo-1181690.jpeg?auto=compress&cs=tinysrgb&w=150&h=150&fit=crop",
        "Depois de um dia estressante, não há nada melhor que uma sessão no La Vie Esbella. O ambiente é acolhedor e os profissionais são verdadeiros especialistas em bem-estar.",
        "Aromaterapia")
    case _ =>
      BuiltinTexts("Patricia Lima", "Arquiteta",
        "https://images.pexels.com/photos/1181695/pexels-photo-1181695.jpeg?auto=compress&cs=tinysrgb&w=150&h=150&fit=crop",
        "Cada detalhe é pensado para proporcionar a melhor experiência. Desde a recepção até o final do tratamento, tudo é perfeito. Já me tornei cliente fiel!",
        "Reflexologia")
  }

  /** The `i`-th entry of `defaultTestimonials`. */
  function BuiltinAt(i: nat): (t: Testimonial)
    requires i < 5
    ensures t.id == None && t.rating == 5 && !t.canDelete
  {
    var e := BuiltinTextsAt(i);
    Builtin(e.name, e.role, e.image, e.text, e.treatment)
  }

  /** `defaultTestimonials`: the five built-in testimonials, in order. */
  const DEFAULTS: seq<Testimonial> := seq(5, i requires 0 <= i < 5 => BuiltinAt(i))

  /** No built-in testimonial has an id, so none of them matches a delete. */
  lemma DefaultsHaveNoId()
    ensures |DEFAULTS| == 5
    ensures forall i :: 0 <= i < |DEFAULTS| ==> DEFAULTS[i].id == None && !DEFAULTS[i].canDelete
  {
  }

  /**
   * The record `handleNewTestimonial` publishes: every field of the
   * submitted one, the role `Cliente`, the rating or 5 when the rating is
   * falsy (0), and the delete flag set.
   */
  function Published(t: Testimonial): (p: Testimonial)
    ensures p.id == t.id && p.name == t.name && p.treatment == t.treatment && p.message == t.message
    ensures p.text == t.text && p.image == t.image && p.date == t.date && p.approved == t.approved
    ensures p.role == TestimonialForm.CLIENT_ROLE && p.canDelete
    ensures p.rating == (if t.rating == 0 then 5 else t.rating) && p.rating != 0
  {
    t.(role := TestimonialForm.CLIENT_ROLE, rating := if t.rating == 0 then 5 else t.rating, canDelete := true)
  }

  /** `list.filter(t => t.id !== id)`. */
  function RemoveId(s: seq<Testimonial>, id: JsString): (r: seq<Testimonial>)
    ensures |r| <= |s|
    ensures forall i :: 0 <= i < |r| ==> r[i].id != Some(id)
    decreases |s|
  {
    if s == [] then []
    else
      var rest := RemoveId(s[..|s| - 1], id);
      var t := s[|s| - 1];
      if t.id != Some(id) then rest + [t] else rest
  }

  /** The carousel's next position: `(i + 1) % n`. */
  function NextSlide(i: int, n: int): (j: int)
    requires n > 0
    ensures 0 <= j < n
  {
    (i + 1) % n
  }

  /** The carousel's previous position: `(i - 1 + n) % n`. */
  function PrevSlide(i: int, n: int): (j: int)
    requires n > 0
    ensures 0 <= j < n
  {
    (i - 1 + n) % n
  }

  /** The section's state: the list, the carousel position, the form toggle, and the shared store. */
  class Board {
    var all: seq<Testimonial>
    var currentSlide: int
    var showForm: bool
    const store: LocalStorage

    /** The built-ins stay at the front, so the list is never empty and the position is on a slide. */
    predicate Valid()
      reads this
    {
      |all| >= |DEFAULTS| && all[..|DEFAULTS|] == DEFAULTS && 0 <= currentSlide < |all|
    }

    /** `testimonials`: the list, or the built-ins while the list is empty. */
    function Shown(): (s: seq<Testimonial>)
      reads this
      ensures s != []
      ensures Valid() ==> s == all
    {
      DefaultsHaveNoId();
      if |all| > 0 then all else DEFAULTS
    }

    /**
     * The section after its mount effect: the built-ins followed by the
     * stored approved list, read as `[]` when absent or unparsable.
     */
    constructor (store: LocalStorage)
      ensures Valid()
      ensures all == DEFAULTS + ParsedOrEmpty(store.approved, [])
      ensures currentSlide == 0 && !showForm && this.store == store
    {
      DefaultsHaveNoId();
      var approved := ParsedOrEmpty(store.approved, []);
      all := DEFAULTS + approved;
      currentSlide := 0;
      showForm := false;
      this.store := store;
      new;
      assert all[..|DEFAULTS|] == DEFAULTS;
    }

    /**
     * `handleNewTestimonial(t)`: the published record goes to the end of
     * the list and to the end of the stored list. A stored value that does
     * not parse, or a failing write, is caught and leaves storage as it was.
     */
    method HandleNewTestimonial(t: Testimonial, writeOk: bool)
      requires Valid()
      modifies this, store
      ensures Valid()
      ensures all == old(all) + [Published(t)]
      ensures currentSlide == old(currentSlide) && showForm == old(showForm)
      ensures store.approved ==
        if old(store.approved).Unparsable? || !writeOk then old(store.approved)
        else Holds(ParsedOrEmpty(old(store.approved), []) + [Published(t)])
      ensures store.rateBuckets == old(store.rateBuckets) && store.hashes == old(store.hashes)
    {
      var newTestimonial := Published(t);
      all := all + [newTestimonial];
      assert all[..|DEFAULTS|] == old(all)[..|DEFAULTS|];
      if !store.approved.Unparsable? {
        var approved := ParsedOrEmpty(store.approved, []) + [newTestimonial];
        if writeOk {
          store.approved := Holds(approved);
        }
      }
    }

    /** The form's `onSubmit` callback: publish, then hide the form. */
    method OnFormSubmit(t: Testimonial, writeOk: bool)
      requires Valid()
      modifies this, store
      ensures Valid()
      ensures all == old(all) + [Published(t)] && currentSlide == old(currentSlide) && !showForm
      ensures store.approved ==
        if old(store.approved).Unparsable? || !writeOk then old(store.approved)
        else Holds(ParsedOrEmpty(old(store.approved), []) + [Published(t)])
      ensures store.rateBuckets == old(store.rateBuckets) && store.hashes == old(store.hashes)
    {
      HandleNewTestimonial(t, writeOk);
      showForm := false;
    }

    /**
     * `handleDeleteTestimonial(id)`: every record with that id leaves the
     * list and the stored list (an absent stored list is written back as
     * `[]`), and a position past the new end moves to the last slide.
     */
    method HandleDeleteTestimonial(id: JsString, writeOk: bool)
      requires Valid()
      modifies this, store
      ensures Valid()
      ensures all == RemoveId(old(all), id)
      ensures currentSlide == if old(currentSlide) >= |all| then |all| - 1 else old(currentSlide)
      ensures showForm == old(showForm)
      ensures store.approved ==
        if old(store.approved).Unparsable? || !writeOk then old(store.approved)
        else Holds(RemoveId(ParsedOrEmpty(old(store.approved), []), id))
      ensures store.rateBuckets == old(store.rateBuckets) && store.hashes == old(store.hashes)
    {
      var updated := RemoveId(all, id);
      DeleteKeepsDefaults(all, id);
      all := updated;
      if !store.approved.Unparsable? {
        var filtered := RemoveId(ParsedOrEmpty(store.approved, []), id);
        if writeOk {
          store.approved := Holds(filtered);
        }
      }
      if currentSlide >= |updated| && |updated| > 0 {
        currentSlide := |updated| - 1;
      }
    }

    /** The arrow to the right, and the five-second auto-advance. */
    method NextSlideClick()
      requires Valid()
      modifies this
      ensures Valid()
      ensures currentSlide == NextSlide(old(currentSlide), |all|)
      ensures all == old(all) && showForm == old(showForm)
    {
      currentSlide := NextSlide(currentSlide, |Shown()|);
    }

    /** The arrow to the left. */
    method PrevSlideClick()
      requires Valid()
      modifies this
      ensures Valid()
      ensures currentSlide == PrevSlide(old(currentSlide), |all|)
      ensures all == old(all) && showForm == old(showForm)
    {
      currentSlide := PrevSlide(currentSlide, |Shown()|);
    }

    /** The button that shows or hides the form. */
    method ToggleForm()
      requires Valid()
      modifies this
      ensures Valid()
      ensures showForm == !old(showForm) && all == old(all) && currentSlide == old(currentSlide)
    {
      showForm := !showForm;
    }
  }

  // ---------------------------------------------------------------------
  // The list operations

  /** Filtering distributes over concatenation, keeping the order of what stays. */
  lemma {:induction false} RemoveIdAppend(a: seq<Testimonial>, b: seq<Testimonial>, id: JsString)
    ensures RemoveId(a + b, id) == RemoveId(a, id) + RemoveId(b, id)
    decreases |b|
  {
    if b == [] {
      assert a + b == a;
    } else {
      var b', t := b[..|b| - 1], b[|b| - 1];
      RemoveIdAppend(a, b', id);
      assert a + b == (a + b') + [t] && b == b' + [t];
      RemoveIdSnoc(a + b', t, id);
      RemoveIdSnoc(b', t, id);
    }
  }

  /** One more record at the end stays exactly when its id differs. */
  lemma RemoveIdSnoc(s: seq<Testimonial>, t: Testimonial, id: JsString)
    ensures RemoveId(s + [t], id) == RemoveId(s, id) + (if t.id != Some(id) then [t] else [])
  {
    var s' := s + [t];
    assert s'[..|s'| - 1] == s && s'[|s'| - 1] == t;
  }

  /** A list in which no record carries the id comes through unchanged. */
  lemma {:induction false} RemoveIdAbsent(s: seq<Testimonial>, id: JsString)
    requires forall i :: 0 <= i < |s| ==> s[i].id != Some(id)
    ensures RemoveId(s, id) == s
    decreases |s|
  {
    if s != [] {
      RemoveIdAbsent(s[..|s| - 1], id);
      assert s[..|s| - 1] + [s[|s| - 1]] == s;
    }
  }

  /** Deleting twice with one id is deleting once. */
  lemma RemoveIdIdempotent(s: seq<Testimonial>, id: JsString)
    ensures RemoveId(RemoveId(s, id), id) == RemoveId(s, id)
  {
    RemoveIdAbsent(RemoveId(s, id), id);
  }

  /** The kept records are exactly the records whose id differs. */
  lemma {:induction false} RemoveIdMembers(s: seq<Testimonial>, id: JsString)
    ensures forall t :: t in RemoveId(s, id) <==> t in s && t.id != Some(id)
    decreases |s|
  {
    if s != [] {
      var s', t := s[..|s| - 1], s[|s| - 1];
      RemoveIdMembers(s', id);
      assert s == s' + [t];
      RemoveIdSnoc(s', t, id);
    }
  }

  /** A delete by any id keeps the built-ins at the front. */
  lemma DefaultsSurviveDelete(rest: seq<Testimonial>, id: JsString)
    ensures RemoveId(DEFAULTS + rest, id) == DEFAULTS + RemoveId(rest, id)
  {
    DefaultsHaveNoId();
    RemoveIdAppend(DEFAULTS, rest, id);
    RemoveIdAbsent(DEFAULTS, id);
  }

  /** A list that starts with the built-ins still does after a delete. */
  lemma DeleteKeepsDefaults(s: seq<Testimonial>, id: JsString)
    requires |s| >= |DEFAULTS| && s[..|DEFAULTS|] == DEFAULTS
    ensures |RemoveId(s, id)| >= |DEFAULTS| && RemoveId(s, id)[..|DEFAULTS|] == DEFAULTS
  {
    var rest := s[|DEFAULTS|..];
    assert s == DEFAULTS + rest;
    DefaultsSurviveDelete(rest, id);
  }

  /** Publishing what is already published changes nothing. */
  lemma PublishedIdempotent(t: Testimonial)
    ensures Published(Published(t)) == Published(t)
  {
  }

  /** Deleting the id of a record just published removes it again, and nothing else. */
  lemma {:induction false} DeleteUndoesPublish(s: seq<Testimonial>, t: Testimonial, id: JsString)
    requires t.id == Some(id)
    ensures RemoveId(s + [Published(t)], id) == RemoveId(s, id)
  {
    RemoveIdAppend(s, [Published(t)], id);
    assert RemoveId([Published(t)], id) == [];
  }

  // ---------------------------------------------------------------------
  // The carousel

  /** Next after previous, and previous after next, return to the slide. */
  lemma SlidesInverse(i: int, n: int)
    requires 0 <= i < n
    ensures NextSlide(PrevSlide(i, n), n) == i
    ensures PrevSlide(NextSlide(i, n), n) == i
  {
    SlidesWrap(i, n);
    SlidesWrap(PrevSlide(i, n), n);
    SlidesWrap(NextSlide(i, n), n);
  }

  /** The modular steps are the wrap-around steps: the last slide is followed by the first, and the first preceded by the last. */
  lemma SlidesWrap(i: int, n: int)
    requires 0 <= i < n
    ensures NextSlide(i, n) == if i == n - 1 then 0 else i + 1
    ensures PrevSlide(i, n) == if i == 0 then n - 1 else i - 1
  {
    if i == n - 1 { Modular.ModUnique(i + 1, 1, 0, n); } else { Modular.ModUnique(i + 1, 0, i + 1, n); }
    if i == 0 { Modular.ModUnique(i - 1 + n, 0, n - 1, n); } else { Modular.ModUnique(i - 1 + n, 1, i - 1, n); }
  }

  // ---------------------------------------------------------------------
  // The form and the section together

  /**
   * One submit from the form shown in the section, with both writes to
   * `approved_testimonials` succeeding on a readable list: the form appends
   * its record, then the callback appends the published copy of it. The
   * stored list grows by two entries with the same id.
   */
  method SubmitFromSection(form: TestimonialForm.Form, board: Board, now: int, id: JsString, date: JsString)
    returns (outcome: TestimonialForm.Outcome)
    requires form.Valid() && !form.isSubmitted && board.Valid() && form.store == board.store
    requires !board.store.approved.Unparsable?
    modifies form, board, board.store
    ensures form.Valid() && board.Valid()
    ensures outcome.Accepted? ==>
      && outcome.record.id == Some(id)
      && board.all == old(board.all) + [Published(outcome.record)]
      && board.store.approved ==
        Holds(ParsedOrEmpty(old(board.store.approved), []) + [outcome.record, Published(outcome.record)])
    ensures !outcome.Accepted? ==> board.all == old(board.all) && board.store.approved == old(board.store.approved)
  {
    outcome := FormSubmitAllWritesOk(form, now, id, date);
    if outcome.Accepted? {
      ghost var before := ParsedOrEmpty(old(board.store.approved), []);
      board.OnFormSubmit(outcome.record, true);
      assert before + [outcome.record] + [Published(outcome.record)] == before + [outcome.record, Published(outcome.record)];
    }
  }

  /** The form's `handleSubmit` with every storage write succeeding, seen from the approved list. */
  method FormSubmitAllWritesOk(form: TestimonialForm.Form, now: int, id: JsString, date: JsString)
    returns (outcome: TestimonialForm.Outcome)
    requires form.Valid() && !form.isSubmitted && !form.store.approved.Unparsable?
    modifies form, form.store
    ensures form.Valid()
    ensures outcome.Accepted? ==>
      && outcome.record.id == Some(id)
      && form.store.approved == Holds(ParsedOrEmpty(old(form.store.approved), []) + [outcome.record])
    ensures !outcome.Accepted? ==> form.store.approved == old(form.store.approved)
  {
    outcome := form.HandleSubmit(now, id, date, true, true, true);
  }

  /** The two entries one submit leaves share their id, and a single delete removes both. */
  lemma StoredTwiceDeletedTogether(s: seq<Testimonial>, record: Testimonial, id: JsString)
    requires record.id == Some(id)
    ensures (s + [record, Published(record)])[|s|].id == (s + [record, Published(record)])[|s| + 1].id
    ensures RemoveId(s + [record, Published(record)], id) == RemoveId(s, id)
  {
    RemoveIdAppend(s, [record, Published(record)], id);
    assert RemoveId([record, Published(record)], id) == [] by {
      RemoveIdAppend([record], [Published(record)], id);
      assert [record] + [Published(record)] == [record, Published(record)];
    }
  }
}
