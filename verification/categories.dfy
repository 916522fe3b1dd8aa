/** The seven event categories of the timeline, in the order the category
    table declares them, and the classifier that maps a free-text label from
    the spreadsheet onto one of them. */
module Categories {
  import opened Text

  datatype Category = Injury | Diagnostic | Injection | Therapy | Holistic | Medication | Surgery

  /** The table key of a category, which is also the text searched for. */
  function Key(c: Category): string {
    match c
    case Injury => "injury"
    case Diagnostic => "diagnostic"
    case Injection => "injection"
    case Therapy => "therapy"
    case Holistic => "holistic"
    case Medication => "medication"
    case Surgery => "surgery"
  }

  /** The keys in declaration order; the classifier tries them in this order. */
  const Declared: seq<Category> := [Injury, Diagnostic, Injection, Therapy, Holistic, Medication, Surgery]

  /** Position of a category in `Declared`. */
  function Rank(c: Category): (r: nat)
    ensures r < |Declared| && Declared[r] == c
  {
    match c
    case Injury => 0
    case Diagnostic => 1
    case Injection => 2
    case Therapy => 3
    case Holistic => 4
    case Medication => 5
    case Surgery => 6
  }

  /** Whether the table key of `c` occurs in the lower-cased label. */
  predicate Hits(lower: string, c: Category) {
    Includes(lower, Key(c))
  }

  /** The classifier loop from the `k`-th declared key on: the first
      category at or after `k` whose key occurs in `lower`, or `Injury` when
      none does. */
  function FirstHitFrom(lower: string, k: nat): (r: Category)
    ensures (Hits(lower, r) && k <= Rank(r)) || (r == Injury && forall c :: k <= Rank(c) ==> !Hits(lower, c))
    ensures forall c :: k <= Rank(c) && Hits(lower, c) ==> Rank(r) <= Rank(c)
    decreases |Declared| - k
  {
    if k >= |Declared| then Injury
    else if Hits(lower, Declared[k]) then Declared[k]
    else FirstHitFrom(lower, k + 1)
  }

  /** `matchCategory`: the result is a category whose key occurs in the
      lower-cased label and no key declared earlier does; when no key occurs
      at all the result is `Injury`. */
  function MatchCategory(value: string): (r: Category)
    ensures Hits(ToLower(value), r) || forall c :: !Hits(ToLower(value), c)
    ensures (forall c :: !Hits(ToLower(value), c)) ==> r == Injury
    ensures forall c :: Hits(ToLower(value), c) ==> Rank(r) <= Rank(c)
  {
    FirstHitFrom(ToLower(value), 0)
  }

  /** Classification ignores letter case. */
  lemma {:induction false} MatchIgnoresCase(value: string)
    ensures MatchCategory(ToLower(value)) == MatchCategory(value)
  {
    ToLowerIdempotent(value);
  }

  /** Converse of the contract of `MatchCategory`: a category whose key
      occurs, with no earlier-declared key occurring, is the answer. */
  lemma {:induction false} MatchIsFirstHit(value: string, c: Category)
    requires Hits(ToLower(value), c)
    requires forall d :: Rank(d) < Rank(c) ==> !Hits(ToLower(value), d)
    ensures MatchCategory(value) == c
  {
    var r := MatchCategory(value);
    assert Rank(r) == Rank(c);
    assert r == Declared[Rank(r)];
  }

  // Worked examples. Each label is a parameter pinned to a literal, and
  // each fact about it is a small lemma of its own.

  lemma {:induction false} HolisticTherapyLower(s: string)
    requires s == "holistic therapy"
    ensures ToLower(s) == s
  {
    ToLowerFixesLower(s);
  }

  lemma {:induction false} HolisticTherapyHasTherapy(s: string)
    requires s == "holistic therapy"
    ensures Hits(s, Therapy)
  {
    assert OccursAt(s, Key(Therapy), 9);
    IncludesIffOccurs(s, Key(Therapy));
  }

  lemma {:induction false} HolisticTherapyMissesInjury(s: string)
    requires s == "holistic therapy"
    ensures !Hits(s, Injury)
  {
    MissingCharExcludes(s, Key(Injury), 2);
  }

  /** Neither worked example contains a 'd', so neither is diagnostic. */
  lemma {:induction false} ExamplesMissDiagnostic(s: string)
    requires s == "holistic therapy" || s == "lumbar injection therapy"
    ensures !Hits(s, Diagnostic)
  {
    MissingCharExcludes(s, Key(Diagnostic), 0);
  }

  lemma {:induction false} HolisticTherapyMissesInjection(s: string)
    requires s == "holistic therapy"
    ensures !Hits(s, Injection)
  {
    MissingCharExcludes(s, Key(Injection), 2);
  }

  /** Priority by declaration order: "therapy" is declared before
      "holistic", so a label holding both words is physical therapy. */
  lemma {:induction false} HolisticTherapyIsTherapy(s: string)
    requires s == "holistic therapy"
    ensures MatchCategory(s) == Therapy
  {
    HolisticTherapyLower(s);
    HolisticTherapyHasTherapy(s);
    HolisticTherapyMissesInjury(s);
    ExamplesMissDiagnostic(s);
    HolisticTherapyMissesInjection(s);
    MatchIsFirstHit(s, Therapy);
  }

  lemma {:induction false} LumbarInjectionLower(s: string)
    requires s == "lumbar injection therapy"
    ensures ToLower(s) == s
  {
    ToLowerFixesLower(s);
  }

  lemma {:induction false} LumbarInjectionHasInjection(s: string)
    requires s == "lumbar injection therapy"
    ensures Hits(s, Injection)
  {
    assert OccursAt(s, Key(Injection), 7);
    IncludesIffOccurs(s, Key(Injection));
  }

  lemma {:induction false} LumbarInjectionMissesInjury(s: string)
    requires s == "lumbar injection therapy"
    ensures !Hits(s, Injury)
  {
    EarlyCharExcludes(s, Key(Injury), 3);
  }

  /** "injection" is declared before "therapy". */
  lemma {:induction false} LumbarInjectionIsInjection(s: string)
    requires s == "lumbar injection therapy"
    ensures MatchCategory(s) == Injection
  {
    LumbarInjectionLower(s);
    LumbarInjectionHasInjection(s);
    LumbarInjectionMissesInjury(s);
    ExamplesMissDiagnostic(s);
    MatchIsFirstHit(s, Injection);
  }

  lemma {:induction false} XRayHitsNothing(s: string)
    requires s == "x-ray"
    ensures forall c :: !Hits(s, c)
  {
    forall c
      ensures !Hits(s, c)
    {
      MissingCharExcludes(s, Key(c), 1);
    }
  }

  /** A label naming no category falls back to injury. */
  lemma {:induction false} UnknownLabelIsInjury(s: string)
    requires s == "x-ray"
    ensures MatchCategory(s) == Injury
  {
    ToLowerFixesLower(s);
    XRayHitsNothing(s);
  }
}
