/** The step state machine of the wizard component in `src/App.tsx`: the
    current step (1 to 4), the route that selects it, and the per-section
    wizard data that the step screens fill in.

    Navigation in the component is indirect: `navigate` changes the location
    and an effect on `location.pathname` then sets the step, or redirects to
    `/step/1`, which re-runs the effect and sets step 1. The class below folds
    each navigation and the effect run it triggers into one `Navigate` call. */
module Wizard {
  import opened Strings

  /** The four keys of `WizardData`. */
  datatype Section = Upload | GitHub | Vercel | User

  /** The values a section can hold: strings, numbers, the file list, any
      other object (the GitHub user), and an explicit `undefined`, which a
      spread keeps as a present key. */
  datatype Value = Undefined | Str(s: string) | Num(n: int) | Strs(items: seq<string>) | Object

  type SectionData = map<string, Value>
  type WizardData = map<Section, SectionData>

  const FirstStep: int := 1
  const LastStep: int := 4

  /** `{ upload: {}, github: {}, vercel: {}, user: {} }`. */
  const InitialData: WizardData := map[Upload := map[], GitHub := map[], Vercel := map[], User := map[]]

  /** All four sections are present. */
  predicate Complete(d: WizardData)
  {
    forall s: Section :: s in d
  }

  lemma InitialDataComplete()
    ensures Complete(InitialData)
  {
    forall s: Section
      ensures s in InitialData
    {
      match s
      case Upload =>
      case GitHub =>
      case Vercel =>
      case User =>
    }
  }

  predicate InRange(step: int)
  {
    FirstStep <= step <= LastStep
  }

  // ---------------------------------------------------------------------------
  // Routing: `path.match(/\/step\/(\d+)/)` and the 1..4 guard
  // ---------------------------------------------------------------------------

  const StepPrefix: string := "/step/"

  /** `/step/${k}`. */
  function StepPath(k: nat): string
  {
    StepPrefix + NatToString(k)
  }

  /** The regular expression can match at position `i`: `/step/` followed by
      at least one digit. */
  predicate MatchesAt(p: string, i: int)
  {
    0 <= i && i + |StepPrefix| < |p| && p[i..i + |StepPrefix|] == StepPrefix && IsDigit(p[i + |StepPrefix|])
  }

  /** The leftmost match position at or after `i`, as an unanchored search
      finds it. */
  function FirstMatch(p: string, i: nat): (r: Option<nat>)
    requires i <= |p|
    ensures r.Some? ==> i <= r.value && MatchesAt(p, r.value)
    ensures r.Some? ==> forall j :: i <= j < r.value ==> !MatchesAt(p, j)
    ensures r.None? ==> forall j :: i <= j <= |p| ==> !MatchesAt(p, j)
    decreases |p| - i
  {
    if MatchesAt(p, i) then Some(i)
    else if i == |p| then None
    else FirstMatch(p, i + 1)
  }

  /** `stepMatch[1]`: the greedy digit run after the leftmost `/step/`, that
      is, the whole run of digits that starts right behind it. */
  function StepCapture(p: string): (r: Option<string>)
    ensures r.Some? ==> |r.value| >= 1 && AllDigits(r.value)
    ensures r.None? <==> forall j :: 0 <= j <= |p| ==> !MatchesAt(p, j)
    ensures r.Some? <==> FirstMatch(p, 0).Some?
    ensures r.Some? ==> var j := FirstMatch(p, 0).value + |StepPrefix|;
      j <= |p| && IsPrefix(r.value, p[j..]) && (j + |r.value| == |p| || !IsDigit(p[j + |r.value|]))
  {
    match FirstMatch(p, 0)
    case None => None
    case Some(i) => Some(LeadingDigits(p[i + |StepPrefix|..]))
  }

  /** The step the path effect selects, or `None` when it redirects to
      `/step/1`: the captured digits, read by `parseInt`, must lie in 1..4. */
  function RouteStep(p: string): (r: Option<int>)
    ensures r.Some? ==> InRange(r.value)
    ensures r.Some? <==> StepCapture(p).Some? && InRange(DigitsValue(StepCapture(p).value))
    ensures r.Some? ==> r.value == DigitsValue(StepCapture(p).value)
  {
    match StepCapture(p)
    case None => None
    case Some(digits) =>
      var step: int := DigitsValue(digits);
      if InRange(step) then Some(step) else None
  }

  /** The path `/step/k` selects step `k` exactly when `k` is in 1..4, and
      redirects otherwise. */
  lemma RouteOfStepPath(k: nat)
    ensures RouteStep(StepPath(k)) == if InRange(k) then Some(k) else None
  {
    var p := StepPath(k);
    var s := NatToString(k);
    assert p[..|StepPrefix|] == StepPrefix;
    assert p[|StepPrefix|..] == s;
    assert MatchesAt(p, 0);
    assert s + "" == s;
    LeadingDigitsOfDigits(s, "");
    DigitsValueOfNatToString(k);
  }

  /** Leading zeros are read away: `/step/0` followed by a digit `d` in 1..4
      selects step `d`. */
  lemma LeadingZeroRoute(d: nat)
    requires 1 <= d <= 4
    ensures RouteStep(StepPrefix + "0" + NatToString(d)) == Some(d)
  {
    var s := NatToString(d);
    var digits := "0" + s;
    var p := StepPrefix + digits;
    assert StepPrefix + "0" + s == p;
    assert p[..|StepPrefix|] == StepPrefix;
    assert p[|StepPrefix|..] == digits;
    assert MatchesAt(p, 0);
    assert AllDigits(digits);
    assert digits + "" == digits;
    LeadingDigitsOfDigits(digits, "");
    assert digits[..1] == "0" && digits[1..] == s;
    assert s == [DigitChar(d)];
    assert digits == ['0', DigitChar(d)];
    assert digits[..|digits| - 1] == ['0'];
    assert ['0'][..0] == [];
    assert DigitsValue(['0']) == 0;
    assert DigitsValue(digits) == d;
    assert FirstMatch(p, 0) == Some(0);
  }

  /** A path without any `/step/<digit>` redirects. */
  lemma NoStepSegmentRedirects(p: string)
    requires forall j :: 0 <= j <= |p| ==> !MatchesAt(p, j)
    ensures RouteStep(p) == None
  {
  }

  /** The match is unanchored: text before `/step/` and after the digits is
      ignored, as long as the prefix holds no earlier match. */
  lemma EmbeddedRoute(before: string, k: nat, after: string)
    requires forall j :: 0 <= j < |before| ==> !MatchesAt(before + StepPath(k) + after, j)
    requires after == [] || !IsDigit(after[0])
    requires InRange(k)
    ensures RouteStep(before + StepPath(k) + after) == Some(k)
  {
    var s := NatToString(k);
    var p := before + StepPath(k) + after;
    var i := |before|;
    assert p[i..i + |StepPrefix|] == StepPrefix;
    assert p[i + |StepPrefix|..] == s + after;
    assert MatchesAt(p, i);
    assert FirstMatch(p, 0) == Some(i);
    LeadingDigitsOfDigits(s, after);
    DigitsValueOfNatToString(k);
  }

  // ---------------------------------------------------------------------------
  // The step transitions, as functions of the current step
  // ---------------------------------------------------------------------------

  /** Where `nextStep` leads. */
  function NextTarget(step: int): (r: int)
    ensures InRange(step) ==> InRange(r)
    ensures step < LastStep ==> r == step + 1
    ensures step >= LastStep ==> r == step
  {
    if step < LastStep then step + 1 else step
  }

  /** Where `prevStep` leads. */
  function PrevTarget(step: int): (r: int)
    ensures InRange(step) ==> InRange(r)
    ensures step > FirstStep ==> r == step - 1
    ensures step <= FirstStep ==> r == step
  {
    if step > FirstStep then step - 1 else step
  }

  /** Where `goToStep(target)` leads. */
  function GoToTarget(step: int, target: int): (r: int)
    ensures InRange(step) ==> InRange(r)
    ensures r == step || r == target
    ensures r == target <==> InRange(target) || target == step
  {
    if InRange(target) then target else step
  }

  /** Where a location change leads: the routed step, or step 1 after the
      redirect. */
  function PathTarget(p: string): (r: int)
    ensures InRange(r)
    ensures RouteStep(p).None? ==> r == FirstStep
    ensures RouteStep(p).Some? ==> r == RouteStep(p).value
  {
    match RouteStep(p)
    case Some(step) => step
    case None => FirstStep
  }

  /** One user action on the wizard. */
  datatype Action = Next | Prev | GoTo(target: int) | Visit(path: string)

  function Apply(step: int, a: Action): int
  {
    match a
    case Next => NextTarget(step)
    case Prev => PrevTarget(step)
    case GoTo(target) => GoToTarget(step, target)
    case Visit(path) => PathTarget(path)
  }

  /** The step after a sequence of actions. */
  function Run(step: int, actions: seq<Action>): int
    decreases |actions|
  {
    if actions == [] then step else Run(Apply(step, actions[0]), actions[1..])
  }

  /** Starting anywhere in 1..4, no sequence of actions leaves 1..4. */
  lemma {:induction false} RunStaysInRange(step: int, actions: seq<Action>)
    requires InRange(step)
    ensures InRange(Run(step, actions))
    decreases |actions|
  {
    if actions != [] {
      var a := actions[0];
      assert InRange(Apply(step, a)) by {
        match a
        case Next =>
        case Prev =>
        case GoTo(t) =>
        case Visit(p) =>
      }
      RunStaysInRange(Apply(step, a), actions[1..]);
    }
  }

  /** Going forward then back from any step before the last returns to it. */
  lemma NextThenPrev(step: int)
    requires FirstStep <= step < LastStep
    ensures Run(step, [Next, Prev]) == step
  {
    assert [Next, Prev][1..] == [Prev];
  }

  // ---------------------------------------------------------------------------
  // `updateWizardData`: a section-wise shallow merge
  // ---------------------------------------------------------------------------

  /** `{ ...prev, ...patch }`: the patch's keys overwrite, every other key of
      `prev` stays. */
  function MergeSection(prev: SectionData, patch: SectionData): (r: SectionData)
    ensures r.Keys == prev.Keys + patch.Keys
    ensures forall k :: k in patch ==> r[k] == patch[k]
    ensures forall k :: k in prev && k !in patch ==> r[k] == prev[k]
  {
    prev + patch
  }

  /** `prev[section]`, where a missing section spreads as the empty object. */
  function SectionOf(d: WizardData, sec: Section): SectionData
  {
    if sec in d then d[sec] else map[]
  }

  /** The new wizard data after `updateWizardData(sec, patch)`. */
  function Updated(d: WizardData, sec: Section, patch: SectionData): (r: WizardData)
    ensures r.Keys == d.Keys + {sec}
    ensures r[sec] == MergeSection(SectionOf(d, sec), patch)
    ensures forall s :: s in d && s != sec ==> r[s] == d[s]
  {
    d[sec := MergeSection(SectionOf(d, sec), patch)]
  }

  /** Applying the same patch twice is applying it once. */
  lemma MergeIdempotent(d: WizardData, sec: Section, patch: SectionData)
    ensures Updated(Updated(d, sec, patch), sec, patch) == Updated(d, sec, patch)
  {
    var once := Updated(d, sec, patch);
    assert MergeSection(once[sec], patch) == once[sec];
  }

  /** An empty patch, as the "change file" button sends, changes nothing. */
  lemma EmptyPatchIsIdentity(d: WizardData, sec: Section)
    requires sec in d
    ensures Updated(d, sec, map[]) == d
  {
    assert MergeSection(d[sec], map[]) == d[sec];
  }

  /** Updates of different sections commute. */
  lemma UpdatesOfOtherSectionsCommute(d: WizardData, s1: Section, p1: SectionData, s2: Section, p2: SectionData)
    requires s1 != s2
    ensures Updated(Updated(d, s1, p1), s2, p2) == Updated(Updated(d, s2, p2), s1, p1)
  {
  }

  // ---------------------------------------------------------------------------
  // The component state
  // ---------------------------------------------------------------------------

  class WizardState {
    var currentStep: int
    var pathname: string
    var data: WizardData

    /** The state after every effect run has settled: the step is in 1..4,
        the location selects it, and all four sections are present. */
    predicate Valid()
      reads this
    {
      && InRange(currentStep)
      && RouteStep(pathname) == Some(currentStep)
      && Complete(data)
    }

    /** Mounting at `initialPath`: step 1 and empty data, then the effect. */
    constructor (initialPath: string)
      ensures Valid()
      ensures currentStep == PathTarget(initialPath)
      ensures pathname == if RouteStep(initialPath).Some? then initialPath else StepPath(1)
      ensures data == InitialData
    {
      currentStep := 1;
      pathname := initialPath;
      data := InitialData;
      new;
      InitialDataComplete();
      Navigate(initialPath);
    }

    /** `navigate(p)` and the effect it triggers: a path that routes sets the
        step; any other path is replaced by `/step/1`, which sets step 1. */
    method Navigate(p: string)
      requires Complete(data)
      modifies this
      ensures Valid()
      ensures currentStep == PathTarget(p)
      ensures pathname == if RouteStep(p).Some? then p else StepPath(1)
      ensures data == old(data)
    {
      match RouteStep(p)
      case Some(step) =>
        pathname := p;
        currentStep := step;
      case None =>
        RouteOfStepPath(1);
        pathname := StepPath(1);
        currentStep := 1;
    }

    /** `nextStep`: moves to `/step/${currentStep + 1}` unless at step 4. */
    method NextStep()
      requires Valid()
      modifies this
      ensures Valid()
      ensures currentStep == NextTarget(old(currentStep))
      ensures pathname == if old(currentStep) < LastStep then StepPath(currentStep) else old(pathname)
      ensures data == old(data)
    {
      if currentStep < LastStep {
        var next := currentStep + 1;
        RouteOfStepPath(next);
        Navigate(StepPath(next));
      }
    }

    /** `prevStep`: moves to `/step/${currentStep - 1}` unless at step 1. */
    method PrevStep()
      requires Valid()
      modifies this
      ensures Valid()
      ensures currentStep == PrevTarget(old(currentStep))
      ensures pathname == if old(currentStep) > FirstStep then StepPath(currentStep) else old(pathname)
      ensures data == old(data)
    {
      if currentStep > FirstStep {
        var prev := currentStep - 1;
        RouteOfStepPath(prev);
        Navigate(StepPath(prev));
      }
    }

    /** `goToStep(step)`: ignored unless `step` is in 1..4. */
    method GoToStep(step: int)
      requires Valid()
      modifies this
      ensures Valid()
      ensures currentStep == GoToTarget(old(currentStep), step)
      ensures pathname == if InRange(step) then StepPath(step) else old(pathname)
      ensures data == old(data)
    {
      if InRange(step) {
        RouteOfStepPath(step);
        Navigate(StepPath(step));
      }
    }

    /** `updateWizardData(section, patch)`. */
    method UpdateWizardData(sec: Section, patch: SectionData)
      requires Valid()
      modifies this
      ensures Valid()
      ensures data == Updated(old(data), sec, patch)
      ensures currentStep == old(currentStep) && pathname == old(pathname)
    {
      data := Updated(data, sec, patch);
    }

    /** `canGoNext`: the next button is enabled exactly when `nextStep` would
        move. */
    function CanGoNext(): (r: bool)
      reads this
      ensures r <==> NextTarget(currentStep) != currentStep
    {
      currentStep < LastStep
    }

    /** `canGoPrev`: the back button is enabled exactly when `prevStep` would
        move. */
    function CanGoPrev(): (r: bool)
      reads this
      ensures r <==> PrevTarget(currentStep) != currentStep
    {
      currentStep > FirstStep
    }
  }
}
