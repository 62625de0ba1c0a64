/**
 * `generateCSS`: compiles the state table into the stylesheet that places the
 * bird with radio-button sibling selectors.
 *
 * `Compile` gathers what the stylesheet says (counts, one placement rule per
 * state with a bird, one note per variant-changing transition) and `Render`
 * spells it out; `GenerateCssText` builds the same text the way the source
 * does, by appending to a string.
 */
module CssGenerator {
  import opened Optional
  import opened Decimal
  import opened Coordinates
  import opened StateMachine

  /** A state shows the bird only when both bird coordinates are set. */
  predicate HasBird(s: State) {
    s.birdLevel.Some? && s.birdPosition.Some?
  }

  /** One placement rule: the selector's triple, the bird's grid cell and whether it animates. */
  datatype Placement = Placement(
    title: string,
    birdLevel: Level,
    birdPosition: Position,
    level: Level,
    position: Position,
    variant: Variant,
    column: nat,
    row: nat,
    grabbing: bool)

  /** The two comment lines documenting a transition that switches the variant radio. */
  datatype VariantNote = VariantNote(fromLabel: string, toLabel: string, fromVariant: Variant, toVariant: Variant)

  datatype Stylesheet = Stylesheet(
    birdCount: nat,
    stateCount: nat,
    transitionCount: nat,
    placements: seq<Placement>,
    variantSection: bool,
    notes: seq<VariantNote>)

  /** `states.filter((s) => s.birdLevel !== null && s.birdPosition !== null)`. */
  function BirdStates(states: seq<State>): (r: seq<State>)
    ensures |r| <= |states|
    ensures forall s :: s in r <==> s in states && HasBird(s)
  {
    if states == [] then []
    else
      var init := states[..|states| - 1];
      var last := states[|states| - 1];
      assert states == init + [last];
      BirdStates(init) + (if HasBird(last) then [last] else [])
  }

  /** `transitions.filter((t) => t.axis === "variant")`. */
  function VariantTransitions(ts: seq<Transition>): (r: seq<Transition>)
    ensures |r| <= |ts|
    ensures forall t :: t in r <==> t in ts && t.axis == VariantAxis
  {
    if ts == [] then []
    else
      var init := ts[..|ts| - 1];
      var last := ts[|ts| - 1];
      assert ts == init + [last];
      VariantTransitions(init) + (if last.axis == VariantAxis then [last] else [])
  }

  /** The rule for a state with a bird: its own triple selects, the bird's coordinates place. */
  function PlacementOf(s: State): (p: Placement)
    requires HasBird(s)
    ensures p.level == s.level && p.position == s.position && p.variant == s.variant
    ensures p.title == FullLabel(s.variant, s.level, s.position)
    ensures 1 <= p.column <= 6 && 1 <= p.row <= 5
    ensures p.column + 12 == s.birdPosition.value && 5 - p.row == s.birdLevel.value
    ensures p.grabbing <==> s.birdMode == Grabbing
  {
    var bl := s.birdLevel.value;
    var bp := s.birdPosition.value;
    Placement(FullLabel(s.variant, s.level, s.position), bl, bp, s.level, s.position, s.variant,
              bp - 12, 5 - bl, s.birdMode == Grabbing)
  }

  /** The note for one variant transition, when both of its endpoints exist. */
  function NoteOf(states: seq<State>, t: Transition): (r: Option<VariantNote>)
    ensures r.Some? <==> HasId(states, t.from) && HasId(states, t.to)
  {
    var from := Find(states, t.from);
    var to := Find(states, t.to);
    if from.Some? && to.Some? then
      Some(VariantNote(ShortLabel(from.value.variant, from.value.level, from.value.position),
                       ShortLabel(to.value.variant, to.value.level, to.value.position),
                       from.value.variant, to.value.variant))
    else None
  }

  /** One placement rule per state with a bird, in order. */
  function Placements(states: seq<State>): (ps: seq<Placement>)
    ensures |ps| == |BirdStates(states)|
    ensures forall p :: p in ps ==> 1 <= p.column <= 6 && 1 <= p.row <= 5
  {
    if states == [] then []
    else
      var last := states[|states| - 1];
      Placements(states[..|states| - 1]) + if HasBird(last) then [PlacementOf(last)] else []
  }

  /** Filtering out the states without a bird first does not change the rules. */
  lemma {:induction false} PlacementsOfBirds(states: seq<State>)
    ensures Placements(BirdStates(states)) == Placements(states)
  {
    if states != [] {
      var init := states[..|states| - 1];
      var last := states[|states| - 1];
      PlacementsOfBirds(init);
      var birds := BirdStates(init);
      if HasBird(last) {
        assert BirdStates(states) == birds + [last];
        assert (birds + [last])[..|birds|] == birds;
      } else {
        assert BirdStates(states) == birds;
      }
    }
  }

  /** The notes of the variant transitions whose endpoints both exist, in order. */
  function Notes(states: seq<State>, vts: seq<Transition>): (r: seq<VariantNote>)
    ensures |r| <= |vts|
  {
    if vts == [] then []
    else
      var note := NoteOf(states, vts[|vts| - 1]);
      Notes(states, vts[..|vts| - 1]) + if note.Some? then [note.value] else []
  }

  /** What the generated stylesheet says about the model. */
  function Compile(states: seq<State>, ts: seq<Transition>): (sheet: Stylesheet)
    ensures sheet.stateCount == |states| && sheet.transitionCount == |ts|
    ensures sheet.birdCount == |sheet.placements| <= |states|
    ensures forall i :: 0 <= i < |sheet.placements| ==>
      1 <= sheet.placements[i].column <= 6 && 1 <= sheet.placements[i].row <= 5
    ensures |sheet.notes| <= |ts|
    ensures !sheet.variantSection ==> sheet.notes == []
  {
    var vts := VariantTransitions(ts);
    Stylesheet(|BirdStates(states)|, |states|, |ts|, Placements(states), vts != [], Notes(states, vts))
  }

  /** The placement rules are absent exactly when no state has a bird, the variant section exactly when no transition changes variant. */
  lemma CompileSections(states: seq<State>, ts: seq<Transition>)
    ensures var sheet := Compile(states, ts);
      && (sheet.placements == [] <==> forall s :: s in states ==> !HasBird(s))
      && (sheet.variantSection <==> exists t :: t in ts && t.axis == VariantAxis)
  {
    var birds := BirdStates(states);
    var vts := VariantTransitions(ts);
    assert birds != [] ==> birds[0] in birds;
    assert vts != [] ==> vts[0] in vts;
  }

  // ---------------------------------------------------------------------
  // Text

  const Bar: string := "══════════════════════════════════════════════════════"

  function HeaderText(birdCount: nat, stateCount: nat, transitionCount: nat): string {
    "/* " + Bar + "\n"
    + "   ROOFVOGEL NPC — GEGENEREERDE CSS\n"
    + "   Drie-assen model: Level × Positie × Variant\n"
    + "   States met vogel: " + NatToString(birdCount) + " / " + NatToString(stateCount) + "\n"
    + "   Transitions: " + NatToString(transitionCount) + "\n"
    + "   " + Bar + " */\n\n"
  }

  /** The fixed rules hiding the radio groups and the bird, and the heading of the placement rules. */
  const Scaffold: string :=
    "/* --- Radiogroepen (verborgen) --- */\n"
    + "input[name=\"level\"],\ninput[name=\"position\"],\ninput[name=\"variant\"] { display: none; }\n\n"
    + "/* --- Vogel basis --- */\n.bird { display: none; position: absolute; }\n\n"
    + "/* --- Vogel positionering per state --- */\n"

  const AnimationLine: string := "  animation: bird-grab 0.3s ease-in-out;\n"

  const NotesHeading: string := "/* --- Variant-wisselende navigatielabels --- */\n"

  const Keyframes: string :=
    "@keyframes bird-grab {\n  0% { transform: scale(1); }\n  50% { transform: scale(1.3) translateY(10px); }\n  100% { transform: scale(1); }\n}\n"

  /** The text of one placement rule, `birdStates.forEach` body at jsx:264-273. */
  function PlacementText(p: Placement): (r: string)
    ensures PlacementHead(p) <= r && EndsWith(r, "}\n\n")
  {
    PlacementHead(p) + (if p.grabbing then AnimationLine else "") + "}\n\n"
  }

  /** The rule of a placement up to its optional animation line: comment, selector, display, column and row. */
  function PlacementHead(p: Placement): string {
    Concat([
      "/* ", p.title, " → vogel op L", NatToString(p.birdLevel), " P", NatToString(p.birdPosition),
      " ", if p.grabbing then "⚠ GEVAAR" else "", " */\n",
      "#level-", NatToString(p.level), ":checked ~ #pos-", NatToString(p.position),
      ":checked ~ #var-", VariantName(p.variant), ":checked ~ .game-board .bird {\n",
      "  display: block;\n  grid-column: ", NatToString(p.column), ";\n  grid-row: "])
    + NatToString(p.row) + ";\n"
  }

  /** The pieces of a text, one after the other. */
  function Concat(parts: seq<string>): string {
    Join(parts, (part: string) => part)
  }

  /** The texts of `xs`, one after the other. */
  function Join<T>(xs: seq<T>, text: T -> string): string {
    if xs == [] then "" else Join(xs[..|xs| - 1], text) + text(xs[|xs| - 1])
  }

  lemma JoinSnoc<T>(xs: seq<T>, x: T, text: T -> string)
    ensures Join(xs + [x], text) == Join(xs, text) + text(x)
  {
    assert (xs + [x])[..|xs|] == xs;
  }

  function NoteText(n: VariantNote): string {
    "/* " + n.fromLabel + " ⟳ " + n.toLabel + " — onzichtbaar voor speler */\n"
    + "/* Label verandert variant-radio van \"" + VariantName(n.fromVariant) + "\" naar \""
    + VariantName(n.toVariant) + "\" */\n\n"
  }

  function Render(sheet: Stylesheet): string {
    HeaderText(sheet.birdCount, sheet.stateCount, sheet.transitionCount)
    + Scaffold
    + Join(sheet.placements, PlacementText)
    + VariantSection(sheet)
    + Keyframes
  }

  /** The heading and the notes, present exactly when some transition changes variant. */
  function VariantSection(sheet: Stylesheet): string {
    if sheet.variantSection then NotesHeading + Join(sheet.notes, NoteText) else ""
  }

  /** `generateCSS`: a pure function of the states and the transitions. */
  function GenerateCss(states: seq<State>, ts: seq<Transition>): string {
    Render(Compile(states, ts))
  }

  predicate EndsWith(s: string, suffix: string) {
    |suffix| <= |s| && s[|s| - |suffix|..] == suffix
  }

  lemma ConcatEnds(a: string, b: string, c: string, d: string, e: string)
    ensures a <= a + b + c + d + e && EndsWith(a + b + c + d + e, e)
  {
    var s := a + b + c + d + e;
    assert s[..|a|] == a;
    assert s[|s| - |e|..] == e;
  }

  /** Every stylesheet closes with the keyframes of the grab animation. */
  lemma GenerateCssEndsWithKeyframes(states: seq<State>, ts: seq<Transition>)
    ensures EndsWith(GenerateCss(states, ts), Keyframes)
  {
    var sheet := Compile(states, ts);
    ConcatEnds(HeaderText(sheet.birdCount, sheet.stateCount, sheet.transitionCount), Scaffold,
      Join(sheet.placements, PlacementText), VariantSection(sheet), Keyframes);
  }

  /** Every stylesheet opens with the header that counts the bird states, all states and the transitions. */
  lemma GenerateCssStartsWithHeader(states: seq<State>, ts: seq<Transition>)
    ensures HeaderText(|BirdStates(states)|, |states|, |ts|) <= GenerateCss(states, ts)
  {
    var sheet := Compile(states, ts);
    ConcatEnds(HeaderText(sheet.birdCount, sheet.stateCount, sheet.transitionCount), Scaffold,
      Join(sheet.placements, PlacementText), VariantSection(sheet), Keyframes);
  }

  /** The head of a rule ends with the last digit of the row, then `;` and a newline. */
  lemma PlacementHeadEnd(p: Placement)
    ensures |PlacementHead(p)| >= 3 && IsDigit(PlacementHead(p)[|PlacementHead(p)| - 3])
  {
    var row := NatToString(p.row);
    var h := PlacementHead(p);
    assert h[|h| - 3] == row[|row| - 1];
  }

  /** A placement rule carries the grab animation exactly when the bird is grabbing. */
  lemma PlacementAnimatesIffGrabbing(p: Placement)
    ensures EndsWith(PlacementText(p), AnimationLine + "}\n\n") <==> p.grabbing
  {
    PlacementHeadEnd(p);
    var t := PlacementText(p);
    var suffix := AnimationLine + "}\n\n";
    var h := PlacementHead(p);
    if p.grabbing {
      assert t == h + suffix;
    } else {
      assert t == h + "}\n\n";
      assert t[|t| - 6] == h[|h| - 3];
      assert suffix[|suffix| - 6] == 't';
    }
  }

  /** The `birdStates.forEach` loop: one rule appended per state with a bird. */
  method PlacementLoop(birds: seq<State>) returns (text: string)
    requires forall i :: 0 <= i < |birds| ==> HasBird(birds[i])
    ensures text == Join(Placements(birds), PlacementText)
  {
    text := "";
    var i := 0;
    while i < |birds|
      invariant 0 <= i <= |birds|
      invariant text == Join(Placements(birds[..i]), PlacementText)
    {
      PlacementStep(birds, i);
      text := text + PlacementText(PlacementOf(birds[i]));
      i := i + 1;
    }
    assert birds[..i] == birds;
  }

  /** One turn of the placement loop appends the rule of the next state. */
  lemma PlacementStep(birds: seq<State>, i: nat)
    requires i < |birds| && HasBird(birds[i])
    ensures Join(Placements(birds[..i + 1]), PlacementText)
      == Join(Placements(birds[..i]), PlacementText) + PlacementText(PlacementOf(birds[i]))
  {
    PlacementsPrefix(birds, i);
    JoinSnoc(Placements(birds[..i]), PlacementOf(birds[i]), PlacementText);
  }

  lemma PlacementsPrefix(states: seq<State>, i: nat)
    requires i < |states| && HasBird(states[i])
    ensures Placements(states[..i + 1]) == Placements(states[..i]) + [PlacementOf(states[i])]
  {
    var pre := states[..i + 1];
    assert pre[..i] == states[..i];
  }

  /** Notes of a sequence extended by one transition. */
  lemma NotesSnoc(states: seq<State>, vts: seq<Transition>, t: Transition)
    ensures Notes(states, vts + [t]) ==
      Notes(states, vts) + if NoteOf(states, t).Some? then [NoteOf(states, t).value] else []
  {
    assert (vts + [t])[..|vts|] == vts;
  }

  /** The `varTransitions.forEach` loop: one note appended per transition whose endpoints exist. */
  method NoteLoop(states: seq<State>, vts: seq<Transition>) returns (text: string)
    ensures text == Join(Notes(states, vts), NoteText)
  {
    text := "";
    var k := 0;
    while k < |vts|
      invariant 0 <= k <= |vts|
      invariant text == Join(Notes(states, vts[..k]), NoteText)
    {
      var note := NoteOf(states, vts[k]);
      assert vts[..k + 1] == vts[..k] + [vts[k]];
      NotesSnoc(states, vts[..k], vts[k]);
      if note.Some? {
        JoinSnoc(Notes(states, vts[..k]), note.value, NoteText);
        text := text + NoteText(note.value);
      } else {
        assert Notes(states, vts[..k + 1]) == Notes(states, vts[..k]);
      }
      k := k + 1;
    }
    assert vts[..k] == vts;
  }

  /** The source's string-building steps produce exactly `GenerateCss`. */
  method GenerateCssText(states: seq<State>, ts: seq<Transition>) returns (css: string)
    ensures css == GenerateCss(states, ts)
  {
    ghost var sheet := Compile(states, ts);
    var birds := BirdStates(states);
    var header := HeaderText(|birds|, |states|, |ts|);
    assert header == HeaderText(sheet.birdCount, sheet.stateCount, sheet.transitionCount);
    var rules := PlacementLoop(birds);
    PlacementsOfBirds(states);
    assert rules == Join(sheet.placements, PlacementText);
    var section := "";
    var vts := VariantTransitions(ts);
    if |vts| > 0 {
      var notes := NoteLoop(states, vts);
      section := NotesHeading + notes;
    }
    assert section == VariantSection(sheet);
    css := header + Scaffold + rules + section + Keyframes;
  }

  // ---------------------------------------------------------------------
  // Properties

  /** A state added at the end contributes one placement rule at the end, if it has a bird. */
  lemma CompileAppendState(states: seq<State>, s: State, ts: seq<Transition>)
    ensures Compile(states + [s], ts).placements ==
      Compile(states, ts).placements + (if HasBird(s) then [PlacementOf(s)] else [])
    ensures Compile(states + [s], ts).stateCount == Compile(states, ts).stateCount + 1
  {
    var all := states + [s];
    assert all[..|all| - 1] == states;
  }

  /** A transition added at the end contributes one note at the end, if it changes variant and both ends exist. */
  lemma CompileAppendTransition(states: seq<State>, ts: seq<Transition>, t: Transition)
    ensures var before := Compile(states, ts);
      var after := Compile(states, ts + [t]);
      && after.variantSection == (before.variantSection || t.axis == VariantAxis)
      && after.notes == before.notes +
        (if t.axis == VariantAxis && NoteOf(states, t).Some? then [NoteOf(states, t).value] else [])
  {
    NotesAppendTransition(states, ts, t);
    var vts := VariantTransitions(ts);
    VariantTransitionsSnoc(ts, t);
    assert |VariantTransitions(ts + [t])| == |vts| + if t.axis == VariantAxis then 1 else 0;
  }

  lemma NotesAppendTransition(states: seq<State>, ts: seq<Transition>, t: Transition)
    ensures Notes(states, VariantTransitions(ts + [t])) == Notes(states, VariantTransitions(ts)) +
      (if t.axis == VariantAxis && NoteOf(states, t).Some? then [NoteOf(states, t).value] else [])
  {
    var vts := VariantTransitions(ts);
    VariantTransitionsSnoc(ts, t);
    if t.axis == VariantAxis {
      NotesSnoc(states, vts, t);
    } else {
      assert vts + [] == vts;
    }
  }

  lemma VariantTransitionsSnoc(ts: seq<Transition>, t: Transition)
    ensures VariantTransitions(ts + [t]) == VariantTransitions(ts) + if t.axis == VariantAxis then [t] else []
  {
    assert (ts + [t])[..|ts|] == ts;
  }

  /** Notes for variant transitions whose endpoints exist: one per transition, each between two different variants. */
  lemma {:induction false} NotesOfWellFormed(states: seq<State>, vts: seq<Transition>)
    requires forall t :: t in vts ==> TransitionOk(states, t) && t.axis == VariantAxis
    ensures |Notes(states, vts)| == |vts|
    ensures forall n :: n in Notes(states, vts) ==> n.fromVariant != n.toVariant
  {
    if vts != [] {
      var init := vts[..|vts| - 1];
      assert forall t :: t in init ==> t in vts;
      NotesOfWellFormed(states, init);
      var t := vts[|vts| - 1];
      assert t in vts;
    }
  }

  /** In a valid editor every variant transition is documented, always as a real change of variant. */
  lemma ValidNotesComplete(e: Editor)
    requires Valid(e)
    ensures var sheet := Compile(e.states, e.transitions);
      && |sheet.notes| == |VariantTransitions(e.transitions)|
      && forall n :: n in sheet.notes ==> n.fromVariant != n.toVariant
  {
    NotesOfWellFormed(e.states, VariantTransitions(e.transitions));
  }

  /** Without birds and without variant transitions only the header, the fixed rules and the keyframes remain. */
  lemma MinimalDocument(states: seq<State>, ts: seq<Transition>)
    requires forall s :: s in states ==> !HasBird(s)
    requires forall t :: t in ts ==> t.axis != VariantAxis
    ensures GenerateCss(states, ts) == HeaderText(0, |states|, |ts|) + Scaffold + Keyframes
  {
    var sheet := Compile(states, ts);
    CompileSections(states, ts);
    assert Join(sheet.placements, PlacementText) == [] && VariantSection(sheet) == [];
    assert sheet.birdCount == 0 && sheet.stateCount == |states| && sheet.transitionCount == |ts|;
    var header := HeaderText(sheet.birdCount, sheet.stateCount, sheet.transitionCount);
    assert header == HeaderText(0, |states|, |ts|);
    assert GenerateCss(states, ts) == header + Scaffold + Join(sheet.placements, PlacementText) + VariantSection(sheet) + Keyframes;
    DropEmpty(header, Scaffold, Join(sheet.placements, PlacementText), VariantSection(sheet), Keyframes);
  }

  lemma DropEmpty(a: string, b: string, c: string, d: string, e: string)
    requires c == [] && d == []
    ensures a + b + c + d + e == a + b + e
  {
  }

  /** The stylesheet of a fresh editor: thirty states, none with a bird, and no transitions. */
  lemma InitialDocument()
    ensures GenerateCss(Initial().states, Initial().transitions) == HeaderText(0, GridSize, 0) + Scaffold + Keyframes
  {
    var states := InitialStates();
    forall i | 0 <= i < |states|
      ensures !HasBird(states[i])
    {
      InitialStatesShape(i);
    }
    MinimalDocument(states, []);
  }
}
