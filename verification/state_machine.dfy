/**
 * The Roofvogel state registry and transition set: the editor's data, the
 * operations that change it, and the invariant every operation preserves.
 *
 * The React component keeps `states` and `transitions` in two hooks; here
 * they form one immutable `Editor` value and every operation is a pure
 * function from the old value to the new one.
 */
module StateMachine {
  import opened Optional
  import opened Coordinates

  datatype BirdMode = Flying | Attacking | Grabbing

  /** A node of the table. `id` is always `StateKey(variant, level, position)`. */
  datatype State = State(
    id: string,
    level: Level,
    position: Position,
    variant: Variant,
    birdLevel: Option<Level>,
    birdPosition: Option<Position>,
    birdMode: BirdMode)

  /** A directed edge between two states, referring to them by id. */
  datatype Transition = Transition(id: string, from: string, to: string, caption: string, axis: Axis)

  /** The bird attributes an `updateState` call merges into a state; `None` leaves one as it is. */
  datatype Patch = Patch(
    birdLevel: Option<Option<Level>>,
    birdPosition: Option<Option<Position>>,
    birdMode: Option<BirdMode>)

  datatype Editor = Editor(states: seq<State>, transitions: seq<Transition>)

  /** The record every creating operation builds: no bird, mode `flying`. */
  function NewState(v: Variant, l: Level, p: Position): State {
    State(StateKey(v, l, p), l, p, v, None, None, Flying)
  }

  predicate SameTriple(s: State, t: State) {
    s.level == t.level && s.position == t.position && s.variant == t.variant
  }

  /** `transitionAxis`: the first coordinate that differs, in the order level, position, variant. */
  function TransitionAxis(from: State, to: State): (axis: Axis)
    ensures axis == LevelAxis <==> from.level != to.level
    ensures axis == PositionAxis <==> from.level == to.level && from.position != to.position
    ensures axis == VariantAxis <==>
      from.level == to.level && from.position == to.position && from.variant != to.variant
    ensures axis == NoAxis <==> SameTriple(from, to)
  {
    if from.level != to.level then LevelAxis
    else if from.position != to.position then PositionAxis
    else if from.variant != to.variant then VariantAxis
    else NoAxis
  }

  /** The id `<from>→<to>` of a transition. */
  function TransitionId(fromId: string, toId: string): (r: string)
    ensures |r| == |fromId| + 1 + |toId|
    ensures fromId <= r && r[|fromId|] == '→'
  {
    fromId + "→" + toId
  }

  /** Index of the first occurrence of `c` in `s`, or `|s|` when there is none. */
  function FirstIndexOf(s: string, c: char): (i: nat)
    ensures i <= |s|
  {
    if s == [] then 0 else if s[0] == c then 0 else 1 + FirstIndexOf(s[1..], c)
  }

  lemma {:induction false} FirstIndexOfJoin(a: string, c: char, b: string)
    requires c !in a
    ensures FirstIndexOf(a + [c] + b, c) == |a|
  {
    if a != [] {
      assert (a + [c] + b)[1..] == a[1..] + [c] + b;
      FirstIndexOfJoin(a[1..], c, b);
    }
  }

  /** Two ids joined by an arrow split back uniquely when the first holds no arrow. */
  lemma TransitionIdInjective(a: string, b: string, c: string, d: string)
    requires '→' !in a && '→' !in c
    ensures TransitionId(a, b) == TransitionId(c, d) <==> a == c && b == d
  {
    if TransitionId(a, b) == TransitionId(c, d) {
      var k := TransitionId(a, b);
      FirstIndexOfJoin(a, '→', b);
      FirstIndexOfJoin(c, '→', d);
      assert a == k[..|a|] == c;
      assert b == k[|a| + 1..] == d;
    }
  }

  // ---------------------------------------------------------------------
  // Lookups

  predicate HasId(states: seq<State>, id: string) {
    exists i :: 0 <= i < |states| && states[i].id == id
  }

  /** `states.find((s) => s.id === id)`: the first state with the id. */
  function Find(states: seq<State>, id: string): (r: Option<State>)
    ensures r.Some? <==> HasId(states, id)
    ensures r.Some? ==> r.value in states && r.value.id == id
  {
    if states == [] then None
    else if states[0].id == id then Some(states[0])
    else
      var r := Find(states[1..], id);
      assert HasId(states[1..], id) ==> HasId(states, id) by {
        if HasId(states[1..], id) {
          var i :| 0 <= i < |states[1..]| && states[1..][i].id == id;
          assert states[i + 1].id == id;
        }
      }
      r
  }

  lemma FindAppend(a: seq<State>, b: seq<State>, id: string)
    ensures Find(a + b, id) == if HasId(a, id) then Find(a, id) else Find(b, id)
  {
    if a != [] {
      assert (a + b)[0] == a[0];
      if a[0].id == id {
        assert HasId(a, id);
      } else {
        assert (a + b)[1..] == a[1..] + b;
        FindAppend(a[1..], b, id);
        HasIdTail(a, id);
      }
    } else {
      assert a + b == b;
    }
  }

  /** Keeps the elements satisfying `keep`, in order: `Array.prototype.filter`. */
  function Filter<T(!new)>(s: seq<T>, keep: T -> bool): (r: seq<T>)
    ensures |r| <= |s|
    ensures forall x :: x in r <==> x in s && keep(x)
  {
    if s == [] then []
    else (if keep(s[0]) then [s[0]] else []) + Filter(s[1..], keep)
  }

  lemma FilterAll<T(!new)>(s: seq<T>, keep: T -> bool)
    requires forall x :: x in s ==> keep(x)
    ensures Filter(s, keep) == s
  {
    forall j | 0 <= j < |s|
      ensures keep(s[j])
    {
      assert s[j] in s;
    }
    FilterKeepsAll(s, keep);
  }

  /** Filtering distributes over concatenation: the kept elements stay in their order. */
  lemma {:induction false} FilterAppend<T(!new)>(a: seq<T>, b: seq<T>, keep: T -> bool)
    ensures Filter(a + b, keep) == Filter(a, keep) + Filter(b, keep)
  {
    if a == [] {
      assert a + b == b;
    } else {
      assert (a + b)[0] == a[0] && (a + b)[1..] == a[1..] + b;
      FilterAppend(a[1..], b, keep);
    }
  }

  /** Filtering keeps a list whose every element passes. */
  lemma {:induction false} FilterKeepsAll<T(!new)>(s: seq<T>, keep: T -> bool)
    requires forall j :: 0 <= j < |s| ==> keep(s[j])
    ensures Filter(s, keep) == s
  {
    if s != [] {
      assert forall j :: 0 <= j < |s[1..]| ==> s[1..][j] == s[j + 1];
      FilterKeepsAll(s[1..], keep);
    }
  }

  /** Filtering `a + [x] + b` when only `x` fails the test gives `a + b`. */
  lemma FilterCutsOut<T(!new)>(a: seq<T>, x: T, b: seq<T>, keep: T -> bool)
    requires !keep(x)
    requires forall j :: 0 <= j < |a| ==> keep(a[j])
    requires forall j :: 0 <= j < |b| ==> keep(b[j])
    ensures Filter(a + [x] + b, keep) == a + b
  {
    assert Filter([x], keep) == [];
    assert Filter(a + [x], keep) == a by {
      FilterAppend(a, [x], keep);
      FilterKeepsAll(a, keep);
      assert a + [] == a;
    }
    FilterAppend(a + [x], b, keep);
    FilterKeepsAll(b, keep);
  }

  /** When only `s[i]` fails the test, filtering cuts out exactly that element. */
  lemma FilterDropsOne<T(!new)>(s: seq<T>, keep: T -> bool, i: nat)
    requires i < |s| && !keep(s[i])
    requires forall j :: 0 <= j < |s| && j != i ==> keep(s[j])
    ensures Filter(s, keep) == s[..i] + s[i + 1..]
  {
    var a, b := s[..i], s[i + 1..];
    forall j | 0 <= j < |a|
      ensures keep(a[j])
    {
      assert a[j] == s[j];
    }
    forall j | 0 <= j < |b|
      ensures keep(b[j])
    {
      assert b[j] == s[i + 1 + j] && i + 1 + j != i;
    }
    SplitAt(s, i);
    FilterCutsOut(a, s[i], b, keep);
  }

  lemma SplitAt<T>(s: seq<T>, i: nat)
    requires i < |s|
    ensures s == s[..i] + [s[i]] + s[i + 1..]
  {
  }

  /** Past a first state without the id, the id is found in the rest or nowhere. */
  lemma HasIdTail(states: seq<State>, id: string)
    requires states != [] && states[0].id != id
    ensures HasId(states, id) <==> HasId(states[1..], id)
  {
    if HasId(states, id) {
      var i :| 0 <= i < |states| && states[i].id == id;
      assert states[1..][i - 1].id == id;
    }
  }

  lemma {:induction false} FindFilter(states: seq<State>, id: string, x: string)
    requires x != id
    ensures Find(Filter(states, (st: State) => st.id != id), x) == Find(states, x)
  {
    if states != [] {
      var keep := (st: State) => st.id != id;
      var head := if keep(states[0]) then [states[0]] else [];
      assert Filter(states, keep) == head + Filter(states[1..], keep);
      FindFilter(states[1..], id, x);
      FindAppend(head, Filter(states[1..], keep), x);
      if states[0].id != x {
        HasIdTail(states, x);
        if head != [] {
          assert !HasId(head, x);
        }
      } else {
        assert head[0].id == x;
      }
    }
  }

  // ---------------------------------------------------------------------
  // The invariant

  predicate UniqueIds(states: seq<State>) {
    forall i, j :: 0 <= i < j < |states| ==> states[i].id != states[j].id
  }

  predicate Keyed(states: seq<State>) {
    forall s :: s in states ==> s.id == StateKey(s.variant, s.level, s.position)
  }

  predicate HasBaseGrid(states: seq<State>) {
    forall l: Level, p: Position :: HasId(states, StateKey(Normaal, l, p))
  }

  /** At most one state per triple, each keyed by its triple, and the full base grid present. */
  predicate ValidStates(states: seq<State>) {
    UniqueIds(states) && Keyed(states) && HasBaseGrid(states)
  }

  predicate HasPair(ts: seq<Transition>, fromId: string, toId: string) {
    exists i :: 0 <= i < |ts| && ts[i].from == fromId && ts[i].to == toId
  }

  predicate UniquePairs(ts: seq<Transition>) {
    forall i, j :: 0 <= i < j < |ts| ==> ts[i].from != ts[j].from || ts[i].to != ts[j].to
  }

  /** No self-loop, both endpoints exist, and id, label and axis are as `addTransition` makes them. */
  predicate TransitionOk(states: seq<State>, t: Transition) {
    && t.from != t.to
    && t.id == TransitionId(t.from, t.to)
    && |t.caption| > 0
    && Find(states, t.from).Some?
    && Find(states, t.to).Some?
    && t.axis == TransitionAxis(Find(states, t.from).value, Find(states, t.to).value)
  }

  predicate Valid(e: Editor) {
    && ValidStates(e.states)
    && UniquePairs(e.transitions)
    && forall t :: t in e.transitions ==> TransitionOk(e.states, t)
  }

  /** In a valid editor no transition is left pointing at a missing state. */
  lemma ValidHasNoDanglingTransition(e: Editor, t: Transition)
    requires Valid(e) && t in e.transitions
    ensures HasId(e.states, t.from) && HasId(e.states, t.to)
  {
  }

  /** Distinct states of a valid editor differ in their triple, so no transition has axis `none`. */
  lemma ValidTransitionHasAxis(e: Editor, t: Transition)
    requires Valid(e) && t in e.transitions
    ensures t.axis != NoAxis
  {
    var a := Find(e.states, t.from).value;
    var b := Find(e.states, t.to).value;
    StateKeyInjective(a.variant, a.level, a.position, b.variant, b.level, b.position);
  }

  // ---------------------------------------------------------------------
  // buildInitialStates

  /**
   * `buildInitialStates`: one `normaal` state per cell, levels outermost,
   * positions innermost. It runs the same loop as `addFullVariant`, over an
   * empty list of states.
   */
  function InitialStates(): (states: seq<State>)
    ensures |states| == GridSize
    ensures forall i :: 0 <= i < |states| ==> states[i] == NewState(Normaal, Grid()[i].0, Grid()[i].1)
  {
    MissingStatesFromNothing(Normaal, Grid());
    MissingStates([], Normaal, Grid())
  }

  /**
   * The i-th initial state is the `normaal` state of the i-th cell, keyed by
   * its triple, with no bird and mode `flying`.
   */
  lemma InitialStatesShape(i: nat)
    requires i < GridSize
    ensures var s := InitialStates()[i];
      && s.variant == Normaal
      && (s.level, s.position) == Grid()[i]
      && s.id == StateKey(Normaal, s.level, s.position)
      && s.birdLevel.None? && s.birdPosition.None?
      && s.birdMode == Flying
  {
  }

  function Initial(): Editor {
    Editor(InitialStates(), [])
  }

  /** The initial states have distinct ids. */
  lemma InitialUnique()
    ensures UniqueIds(InitialStates())
  {
    GridDistinct();
    MissingStatesUnique([], Normaal, Grid());
  }

  /** Every (level, position) pair has its `normaal` state from the start. */
  lemma InitialBaseGrid()
    ensures HasBaseGrid(InitialStates())
  {
    forall l: Level, p: Position
      ensures HasId(InitialStates(), StateKey(Normaal, l, p))
    {
      GridComplete(l, p);
      MissingStatesCover([], Normaal, Grid(), (l, p));
      assert [] + InitialStates() == InitialStates();
    }
  }

  /** The initial editor satisfies the invariant: 30 distinct base states and no transitions. */
  lemma InitialValid()
    ensures ValidStates(InitialStates())
    ensures Valid(Initial())
  {
    InitialUnique();
    InitialBaseGrid();
  }

  // ---------------------------------------------------------------------
  // addVariantState

  /** `addVariantState`: appends a fresh state for the triple unless one with its id exists. */
  function AddVariantState(e: Editor, l: Level, p: Position, v: Variant): (r: Editor)
    ensures HasId(e.states, StateKey(v, l, p)) ==> r == e
    ensures !HasId(e.states, StateKey(v, l, p)) ==>
      r == Editor(e.states + [NewState(v, l, p)], e.transitions)
    ensures HasId(r.states, StateKey(v, l, p))
  {
    if Find(e.states, StateKey(v, l, p)).Some? then e
    else
      var r := Editor(e.states + [NewState(v, l, p)], e.transitions);
      assert r.states[|e.states|].id == StateKey(v, l, p);
      r
  }

  lemma HasIdAppend(a: seq<State>, b: seq<State>, id: string)
    ensures HasId(a + b, id) <==> HasId(a, id) || HasId(b, id)
  {
    if HasId(a, id) {
      var i :| 0 <= i < |a| && a[i].id == id;
      assert (a + b)[i].id == id;
    }
    if HasId(b, id) {
      var i :| 0 <= i < |b| && b[i].id == id;
      assert (a + b)[|a| + i].id == id;
    }
    if HasId(a + b, id) {
      var i :| 0 <= i < |a + b| && (a + b)[i].id == id;
      if i < |a| {
        assert a[i].id == id;
      } else {
        assert b[i - |a|].id == id;
      }
    }
  }

  /** Appending states with new ids, unique among themselves, keeps ids unique. */
  lemma AppendUniqueIds(a: seq<State>, b: seq<State>)
    requires UniqueIds(a) && UniqueIds(b)
    requires forall s :: s in b ==> !HasId(a, s.id)
    ensures UniqueIds(a + b)
  {
    var states := a + b;
    forall i, j | 0 <= i < j < |states|
      ensures states[i].id != states[j].id
    {
      if j < |a| {
        assert states[i] == a[i] && states[j] == a[j];
      } else if i < |a| {
        assert states[j] == b[j - |a|] && b[j - |a|] in b;
        assert states[i] == a[i];
      } else {
        assert states[i] == b[i - |a|] && states[j] == b[j - |a|];
      }
    }
  }

  /** Appending states never loses a base-grid state. */
  lemma AppendBaseGrid(a: seq<State>, b: seq<State>)
    requires HasBaseGrid(a)
    ensures HasBaseGrid(a + b)
  {
    forall l: Level, p: Position
      ensures HasId(a + b, StateKey(Normaal, l, p))
    {
      HasIdAppend(a, b, StateKey(Normaal, l, p));
    }
  }

  /** Appending states leaves every transition's endpoints, and so its axis, as they were. */
  lemma AppendTransitionsOk(a: seq<State>, b: seq<State>, ts: seq<Transition>)
    requires forall t :: t in ts ==> TransitionOk(a, t)
    ensures forall t :: t in ts ==> TransitionOk(a + b, t)
  {
    forall t | t in ts
      ensures TransitionOk(a + b, t)
    {
      FindAppend(a, b, t.from);
      FindAppend(a, b, t.to);
    }
  }

  /**
   * Appending states whose ids are new and unique among themselves keeps the
   * invariant, and every transition keeps its endpoints and axis.
   */
  lemma AppendStatesValid(e: Editor, extra: seq<State>)
    requires Valid(e)
    requires UniqueIds(extra) && Keyed(extra)
    requires forall s :: s in extra ==> !HasId(e.states, s.id)
    ensures Valid(Editor(e.states + extra, e.transitions))
  {
    AppendUniqueIds(e.states, extra);
    AppendBaseGrid(e.states, extra);
    AppendTransitionsOk(e.states, extra, e.transitions);
    assert Keyed(e.states + extra) by {
      forall s | s in e.states + extra
        ensures s.id == StateKey(s.variant, s.level, s.position)
      {
        assert s in e.states || s in extra;
      }
    }
  }

  lemma AddVariantStateValid(e: Editor, l: Level, p: Position, v: Variant)
    requires Valid(e)
    ensures Valid(AddVariantState(e, l, p, v))
  {
    if !HasId(e.states, StateKey(v, l, p)) {
      AppendStatesValid(e, [NewState(v, l, p)]);
    }
  }

  /** Adding the same state twice is the same as adding it once. */
  lemma AddVariantStateIdempotent(e: Editor, l: Level, p: Position, v: Variant)
    ensures AddVariantState(AddVariantState(e, l, p, v), l, p, v) == AddVariantState(e, l, p, v)
  {
  }

  // ---------------------------------------------------------------------
  // addFullVariant

  /**
   * The states `addFullVariant` creates for `cells`: one new state per cell
   * whose id `states` does not already hold, in the order of `cells`.
   */
  function MissingStates(states: seq<State>, v: Variant, cells: seq<Cell>): (r: seq<State>)
    ensures |r| <= |cells|
    ensures forall i :: 0 <= i < |r| ==> r[i].variant == v
  {
    if cells == [] then []
    else
      var c := cells[0];
      var rest := MissingStates(states, v, cells[1..]);
      if Find(states, StateKey(v, c.0, c.1)).Some? then rest else [NewState(v, c.0, c.1)] + rest
  }

  /** Every created state is a fresh, bird-less state of the variant, at one of the cells. */
  lemma {:induction false} MissingStatesFresh(states: seq<State>, v: Variant, cells: seq<Cell>)
    ensures forall s :: s in MissingStates(states, v, cells) ==>
      && s.variant == v
      && s.id == StateKey(v, s.level, s.position)
      && s.birdLevel.None? && s.birdPosition.None? && s.birdMode == Flying
      && (s.level, s.position) in cells
      && !HasId(states, s.id)
  {
    if cells != [] {
      MissingStatesFresh(states, v, cells[1..]);
    }
  }

  /** For distinct cells the created states have pairwise distinct ids. */
  lemma {:induction false} MissingStatesUnique(states: seq<State>, v: Variant, cells: seq<Cell>)
    requires DistinctCells(cells)
    ensures UniqueIds(MissingStates(states, v, cells))
  {
    if cells != [] {
      var c := cells[0];
      var rest := MissingStates(states, v, cells[1..]);
      DistinctTail(cells);
      MissingStatesUnique(states, v, cells[1..]);
      if Find(states, StateKey(v, c.0, c.1)).None? {
        var s := NewState(v, c.0, c.1);
        forall t | t in rest
          ensures t.id != s.id
        {
          MissingStatesAt(states, v, cells, t);
        }
        ConsUniqueIds(s, rest);
      }
    }
  }

  /** A state created for a later cell carries a different key than the first cell's. */
  lemma MissingStatesAt(states: seq<State>, v: Variant, cells: seq<Cell>, t: State)
    requires DistinctCells(cells) && |cells| > 0
    requires t in MissingStates(states, v, cells[1..])
    ensures t.id != StateKey(v, cells[0].0, cells[0].1)
  {
    MissingStatesFresh(states, v, cells[1..]);
    var c := cells[0];
    assert (t.level, t.position) in cells[1..];
    DistinctTail(cells);
    StateKeyInjective(v, c.0, c.1, v, t.level, t.position);
  }

  lemma ConsUniqueIds(s: State, rest: seq<State>)
    requires UniqueIds(rest)
    requires forall t :: t in rest ==> t.id != s.id
    ensures UniqueIds([s] + rest)
  {
    var r := [s] + rest;
    forall i, j | 0 <= i < j < |r|
      ensures r[i].id != r[j].id
    {
      assert r[j] == rest[j - 1];
      if i > 0 {
        assert r[i] == rest[i - 1];
      } else {
        assert r[j] in rest;
      }
    }
  }

  /** After appending the created states, every one of the cells has its state. */
  lemma {:induction false} MissingStatesCover(states: seq<State>, v: Variant, cells: seq<Cell>, c: Cell)
    requires c in cells
    ensures HasId(states + MissingStates(states, v, cells), StateKey(v, c.0, c.1))
  {
    var k := StateKey(v, c.0, c.1);
    var r := MissingStates(states, v, cells);
    var rest := MissingStates(states, v, cells[1..]);
    HasIdAppend(states, r, k);
    if c != cells[0] {
      MissingStatesCover(states, v, cells[1..], c);
      HasIdAppend(states, rest, k);
      if r != rest {
        HasIdAppend([r[0]], rest, k);
        assert r == [r[0]] + rest;
      }
    } else if !HasId(states, k) {
      assert r[0].id == k;
    }
  }

  /** With no states yet, one state is created per cell, in the cells' order. */
  lemma {:induction false} MissingStatesFromNothing(v: Variant, cells: seq<Cell>)
    ensures |MissingStates([], v, cells)| == |cells|
    ensures forall i :: 0 <= i < |cells| ==> MissingStates([], v, cells)[i] == NewState(v, cells[i].0, cells[i].1)
  {
    if cells != [] {
      var c := cells[0];
      var rest := MissingStates([], v, cells[1..]);
      MissingStatesFromNothing(v, cells[1..]);
      assert Find([], StateKey(v, c.0, c.1)).None?;
      assert MissingStates([], v, cells) == [NewState(v, c.0, c.1)] + rest;
      NewStatesCons(v, cells, rest);
    }
  }

  lemma NewStatesCons(v: Variant, cells: seq<Cell>, rest: seq<State>)
    requires |cells| > 0 && |rest| == |cells| - 1
    requires forall i :: 0 <= i < |rest| ==> rest[i] == NewState(v, cells[1..][i].0, cells[1..][i].1)
    ensures var r := [NewState(v, cells[0].0, cells[0].1)] + rest;
      forall i :: 0 <= i < |cells| ==> r[i] == NewState(v, cells[i].0, cells[i].1)
  {
    var r := [NewState(v, cells[0].0, cells[0].1)] + rest;
    forall i | 1 <= i < |cells|
      ensures r[i] == NewState(v, cells[i].0, cells[i].1)
    {
      assert r[i] == rest[i - 1] && cells[1..][i - 1] == cells[i];
    }
  }

  /** Nothing is created when every cell already has its state. */
  lemma {:induction false} MissingStatesNone(states: seq<State>, v: Variant, cells: seq<Cell>)
    requires forall l: Level, p: Position :: HasId(states, StateKey(v, l, p))
    ensures MissingStates(states, v, cells) == []
  {
    if cells != [] {
      MissingStatesNone(states, v, cells[1..]);
      assert HasId(states, StateKey(v, cells[0].0, cells[0].1));
    }
  }

  /** `addFullVariant`: appends the still-missing states of the variant's grid, keeping all existing ones. */
  function AddFullVariant(e: Editor, v: Variant): (r: Editor)
    ensures |e.states| <= |r.states| && r.states[..|e.states|] == e.states
    ensures r.transitions == e.transitions
  {
    var r := Editor(e.states + MissingStates(e.states, v, Grid()), e.transitions);
    assert r.states[..|e.states|] == e.states;
    r
  }

  /** After `addFullVariant(v)` all 30 states of `v` exist. */
  lemma AddFullVariantComplete(e: Editor, v: Variant)
    ensures forall l: Level, p: Position :: HasId(AddFullVariant(e, v).states, StateKey(v, l, p))
  {
    forall l: Level, p: Position
      ensures HasId(AddFullVariant(e, v).states, StateKey(v, l, p))
    {
      GridComplete(l, p);
      MissingStatesCover(e.states, v, Grid(), (l, p));
    }
  }

  /** The states `addFullVariant` appends belong to the variant and have no bird, mode `flying`. */
  lemma AddFullVariantNewStates(e: Editor, v: Variant)
    ensures forall i :: |e.states| <= i < |AddFullVariant(e, v).states| ==>
      var s := AddFullVariant(e, v).states[i];
      s.variant == v && s.birdLevel.None? && s.birdPosition.None? && s.birdMode == Flying
  {
    var extra := MissingStates(e.states, v, Grid());
    MissingStatesFresh(e.states, v, Grid());
    var r := AddFullVariant(e, v);
    assert r.states == e.states + extra;
    forall i | |e.states| <= i < |r.states|
      ensures var s := r.states[i];
        s.variant == v && s.birdLevel.None? && s.birdPosition.None? && s.birdMode == Flying
    {
      var s := extra[i - |e.states|];
      assert r.states[i] == s;
      assert s in extra;
    }
  }

  /** When every state of the variant already exists, `addFullVariant` changes nothing. */
  lemma AddFullVariantNoChange(e: Editor, v: Variant)
    requires forall l: Level, p: Position :: HasId(e.states, StateKey(v, l, p))
    ensures AddFullVariant(e, v) == e
  {
    MissingStatesNone(e.states, v, Grid());
    assert e.states + [] == e.states;
  }

  lemma AddFullVariantValid(e: Editor, v: Variant)
    requires Valid(e)
    ensures Valid(AddFullVariant(e, v))
  {
    MissingStatesFresh(e.states, v, Grid());
    GridDistinct();
    MissingStatesUnique(e.states, v, Grid());
    AppendStatesValid(e, MissingStates(e.states, v, Grid()));
  }

  /** A second `addFullVariant` for the same variant changes nothing. */
  lemma AddFullVariantIdempotent(e: Editor, v: Variant)
    ensures AddFullVariant(AddFullVariant(e, v), v) == AddFullVariant(e, v)
  {
    AddFullVariantComplete(e, v);
    AddFullVariantNoChange(AddFullVariant(e, v), v);
  }

  // ---------------------------------------------------------------------
  // removeState

  /**
   * `removeState`: refuses a `normaal` state; otherwise drops the state with the
   * id and every transition starting or ending at it.
   */
  function RemoveState(e: Editor, id: string): (r: Editor)
    ensures Find(e.states, id).Some? && Find(e.states, id).value.variant == Normaal ==> r == e
    ensures !(Find(e.states, id).Some? && Find(e.states, id).value.variant == Normaal) ==>
      && !HasId(r.states, id)
      && (forall s :: s in r.states <==> s in e.states && s.id != id)
      && (forall t :: t in r.transitions <==> t in e.transitions && t.from != id && t.to != id)
  {
    var s := Find(e.states, id);
    if s.Some? && s.value.variant == Normaal then e
    else
      var r := Editor(
        Filter(e.states, (st: State) => st.id != id),
        Filter(e.transitions, (t: Transition) => t.from != id && t.to != id));
      assert !HasId(r.states, id) by {
        forall i | 0 <= i < |r.states|
          ensures r.states[i].id != id
        {
          assert r.states[i] in r.states;
        }
      }
      r
  }

  lemma FilterUniqueIds(states: seq<State>, keep: State -> bool)
    requires UniqueIds(states)
    ensures UniqueIds(Filter(states, keep))
  {
    if states != [] {
      FilterUniqueIds(states[1..], keep);
      var rest := Filter(states[1..], keep);
      var r := Filter(states, keep);
      if keep(states[0]) {
        forall k | 1 <= k < |r|
          ensures r[0].id != r[k].id
        {
          assert r[k] in rest;
          var j :| 0 <= j < |states[1..]| && states[1..][j] == r[k];
          assert states[j + 1] == r[k];
        }
      }
    }
  }

  lemma FilterUniquePairs(ts: seq<Transition>, keep: Transition -> bool)
    requires UniquePairs(ts)
    ensures UniquePairs(Filter(ts, keep))
  {
    if ts != [] {
      FilterUniquePairs(ts[1..], keep);
      var rest := Filter(ts[1..], keep);
      var r := Filter(ts, keep);
      if keep(ts[0]) {
        forall k | 1 <= k < |r|
          ensures r[0].from != r[k].from || r[0].to != r[k].to
        {
          assert r[k] in rest;
          var j :| 0 <= j < |ts[1..]| && ts[1..][j] == r[k];
          assert ts[j + 1] == r[k];
        }
      }
    }
  }

  /** Removing a state keeps the invariant: the base grid stays and no transition dangles. */
  lemma RemoveStateValid(e: Editor, id: string)
    requires Valid(e)
    ensures Valid(RemoveState(e, id))
  {
    var f := Find(e.states, id);
    if !(f.Some? && f.value.variant == Normaal) {
      var keepState := (st: State) => st.id != id;
      var keepEdge := (t: Transition) => t.from != id && t.to != id;
      var r := RemoveState(e, id);
      assert r.states == Filter(e.states, keepState);
      assert r.transitions == Filter(e.transitions, keepEdge);
      FilterUniqueIds(e.states, keepState);
      FilterUniquePairs(e.transitions, keepEdge);
      forall l: Level, p: Position
        ensures HasId(r.states, StateKey(Normaal, l, p))
      {
        var k := StateKey(Normaal, l, p);
        if k == id {
          var s := f.value;
          StateKeyInjective(s.variant, s.level, s.position, Normaal, l, p);
          assert false;
        }
        FindFilter(e.states, id, k);
      }
      forall t | t in r.transitions
        ensures TransitionOk(r.states, t)
      {
        FindFilter(e.states, id, t.from);
        FindFilter(e.states, id, t.to);
      }
    }
  }

  /**
   * With unique ids, removing a state other than a `normaal` one cuts out exactly
   * that state and keeps every other state in its place and order.
   */
  lemma RemoveStateSplice(e: Editor, i: nat)
    requires UniqueIds(e.states) && i < |e.states| && e.states[i].variant != Normaal
    ensures RemoveState(e, e.states[i].id).states == e.states[..i] + e.states[i + 1..]
  {
    var id := e.states[i].id;
    var f := Find(e.states, id);
    assert HasId(e.states, id);
    var j :| 0 <= j < |e.states| && e.states[j] == f.value;
    assert j == i;
    var keep := (st: State) => st.id != id;
    assert RemoveState(e, id).states == Filter(e.states, keep);
    FilterDropsOne(e.states, keep, i);
  }

  /** Removing an id no state has leaves the states as they are. */
  lemma RemoveStateAbsent(e: Editor, id: string)
    requires !HasId(e.states, id)
    ensures RemoveState(e, id).states == e.states
  {
    var keep := (st: State) => st.id != id;
    forall s | s in e.states
      ensures keep(s)
    {
      var j :| 0 <= j < |e.states| && e.states[j] == s;
    }
    FilterAll(e.states, keep);
  }

  /** The transitions left after removing a state keep their order: removal works piecewise on any split of the list. */
  lemma RemoveStateTransitionsInOrder(e: Editor, id: string, a: seq<Transition>, b: seq<Transition>)
    requires e.transitions == a + b
    requires !(Find(e.states, id).Some? && Find(e.states, id).value.variant == Normaal)
    ensures RemoveState(e, id).transitions
      == RemoveState(Editor(e.states, a), id).transitions + RemoveState(Editor(e.states, b), id).transitions
  {
    FilterAppend(a, b, (t: Transition) => t.from != id && t.to != id);
  }

  // ---------------------------------------------------------------------
  // updateState

  /** `{ ...s, ...updates }` for the bird attributes; id and triple are never touched. */
  function ApplyPatch(s: State, u: Patch): (r: State)
    ensures r.id == s.id && SameTriple(r, s)
    ensures r.birdLevel == u.birdLevel.GetOr(s.birdLevel)
    ensures r.birdPosition == u.birdPosition.GetOr(s.birdPosition)
    ensures r.birdMode == u.birdMode.GetOr(s.birdMode)
  {
    s.(birdLevel := u.birdLevel.GetOr(s.birdLevel),
       birdPosition := u.birdPosition.GetOr(s.birdPosition),
       birdMode := u.birdMode.GetOr(s.birdMode))
  }

  function UpdateStates(states: seq<State>, id: string, u: Patch): (r: seq<State>)
    ensures |r| == |states|
    ensures forall i :: 0 <= i < |states| ==>
      r[i] == if states[i].id == id then ApplyPatch(states[i], u) else states[i]
  {
    if states == [] then []
    else [if states[0].id == id then ApplyPatch(states[0], u) else states[0]] + UpdateStates(states[1..], id, u)
  }

  /** `updateState`: patches the state with the id; every other state and all transitions stay. */
  function UpdateState(e: Editor, id: string, u: Patch): (r: Editor)
    ensures r.transitions == e.transitions
    ensures |r.states| == |e.states|
    ensures forall i :: 0 <= i < |e.states| ==> r.states[i].id == e.states[i].id && SameTriple(r.states[i], e.states[i])
    ensures forall i :: 0 <= i < |e.states| && e.states[i].id != id ==> r.states[i] == e.states[i]
    ensures forall i :: 0 <= i < |e.states| && e.states[i].id == id ==> r.states[i] == ApplyPatch(e.states[i], u)
  {
    Editor(UpdateStates(e.states, id, u), e.transitions)
  }

  lemma FindUpdate(states: seq<State>, id: string, u: Patch, x: string)
    ensures Find(UpdateStates(states, id, u), x).Some? <==> Find(states, x).Some?
    ensures Find(states, x).Some? ==> SameTriple(Find(UpdateStates(states, id, u), x).value, Find(states, x).value)
  {
    if states != [] {
      assert UpdateStates(states, id, u)[1..] == UpdateStates(states[1..], id, u);
      FindUpdate(states[1..], id, u, x);
    }
  }

  /** Patching keeps every state's id and triple, so it keeps the ids unique. */
  lemma UpdateStatesUnique(states: seq<State>, id: string, u: Patch)
    requires UniqueIds(states)
    ensures UniqueIds(UpdateStates(states, id, u))
  {
    var r := UpdateStates(states, id, u);
    forall i, j | 0 <= i < j < |r|
      ensures r[i].id != r[j].id
    {
      assert r[i].id == states[i].id && r[j].id == states[j].id;
    }
  }

  /** Patching keeps every state keyed by its triple. */
  lemma UpdateStatesKeyed(states: seq<State>, id: string, u: Patch)
    requires Keyed(states)
    ensures Keyed(UpdateStates(states, id, u))
  {
    var r := UpdateStates(states, id, u);
    forall s | s in r
      ensures s.id == StateKey(s.variant, s.level, s.position)
    {
      var i :| 0 <= i < |r| && r[i] == s;
      var o := states[i];
      assert o in states;
      assert s.id == o.id && SameTriple(s, o);
    }
  }

  /** Patching never loses a base-grid state. */
  lemma UpdateStatesBaseGrid(states: seq<State>, id: string, u: Patch)
    requires HasBaseGrid(states)
    ensures HasBaseGrid(UpdateStates(states, id, u))
  {
    var r := UpdateStates(states, id, u);
    forall l: Level, p: Position
      ensures HasId(r, StateKey(Normaal, l, p))
    {
      var i :| 0 <= i < |states| && states[i].id == StateKey(Normaal, l, p);
      assert r[i].id == StateKey(Normaal, l, p);
    }
  }

  /** Patching keeps every transition's endpoints and their triples, so its axis. */
  lemma UpdateTransitionsOk(states: seq<State>, id: string, u: Patch, ts: seq<Transition>)
    requires forall t :: t in ts ==> TransitionOk(states, t)
    ensures forall t :: t in ts ==> TransitionOk(UpdateStates(states, id, u), t)
  {
    forall t | t in ts
      ensures TransitionOk(UpdateStates(states, id, u), t)
    {
      FindUpdate(states, id, u, t.from);
      FindUpdate(states, id, u, t.to);
    }
  }

  lemma UpdateStateValid(e: Editor, id: string, u: Patch)
    requires Valid(e)
    ensures Valid(UpdateState(e, id, u))
  {
    UpdateStatesUnique(e.states, id, u);
    UpdateStatesKeyed(e.states, id, u);
    UpdateStatesBaseGrid(e.states, id, u);
    UpdateTransitionsOk(e.states, id, u, e.transitions);
  }

  // ---------------------------------------------------------------------
  // addTransition / removeTransition

  /** `label || transitionIcon(axis)`: a missing or empty label falls back to the axis icon. */
  function DefaultLabel(caption: Option<string>, axis: Axis): (r: string)
    ensures |r| > 0
    ensures caption.Some? && caption.value != "" ==> r == caption.value
    ensures caption.None? || caption.value == "" ==> r == TransitionIcon(axis)
  {
    if caption.Some? && caption.value != "" then caption.value else TransitionIcon(axis)
  }

  /** Why `addTransition` would leave the transitions as they are. */
  predicate RefusesTransition(e: Editor, fromId: string, toId: string) {
    fromId == toId || HasPair(e.transitions, fromId, toId) || !HasId(e.states, fromId) || !HasId(e.states, toId)
  }

  /**
   * `addTransition`: refuses a self-loop, an existing ordered pair and a
   * missing endpoint; otherwise appends one edge classified by `TransitionAxis`.
   */
  function AddTransition(e: Editor, fromId: string, toId: string, caption: Option<string>): (r: Editor)
    ensures r.states == e.states
    ensures RefusesTransition(e, fromId, toId) ==> r == e
    ensures !RefusesTransition(e, fromId, toId) ==>
      var axis := TransitionAxis(Find(e.states, fromId).value, Find(e.states, toId).value);
      r.transitions == e.transitions + [Transition(TransitionId(fromId, toId), fromId, toId, DefaultLabel(caption, axis), axis)]
    ensures HasPair(r.transitions, fromId, toId) <==> HasPair(e.transitions, fromId, toId) || !RefusesTransition(e, fromId, toId)
  {
    if fromId == toId then e
    else if HasPair(e.transitions, fromId, toId) then e
    else
      var from := Find(e.states, fromId);
      var to := Find(e.states, toId);
      if from.None? || to.None? then e
      else
        var axis := TransitionAxis(from.value, to.value);
        var t := Transition(TransitionId(fromId, toId), fromId, toId, DefaultLabel(caption, axis), axis);
        var r := Editor(e.states, e.transitions + [t]);
        assert r.transitions[|e.transitions|] == t;
        assert HasPair(r.transitions, fromId, toId) ==> HasPair(e.transitions, fromId, toId) || !RefusesTransition(e, fromId, toId);
        r
  }

  lemma AddTransitionValid(e: Editor, fromId: string, toId: string, caption: Option<string>)
    requires Valid(e)
    ensures Valid(AddTransition(e, fromId, toId, caption))
  {
    var r := AddTransition(e, fromId, toId, caption);
    if !RefusesTransition(e, fromId, toId) {
      var ts := r.transitions;
      var n := |e.transitions|;
      forall i, j | 0 <= i < j < |ts|
        ensures ts[i].from != ts[j].from || ts[i].to != ts[j].to
      {
        if j == n {
          assert ts[i] == e.transitions[i];
        }
      }
    }
  }

  /** Adding the same transition twice is the same as adding it once. */
  lemma AddTransitionIdempotent(e: Editor, fromId: string, toId: string, caption: Option<string>)
    ensures AddTransition(AddTransition(e, fromId, toId, caption), fromId, toId, caption) == AddTransition(e, fromId, toId, caption)
  {
  }

  /** `removeTransition`: drops the transitions with the id and nothing else. */
  function RemoveTransition(e: Editor, id: string): (r: Editor)
    ensures r.states == e.states
    ensures forall t :: t in r.transitions <==> t in e.transitions && t.id != id
    ensures |r.transitions| <= |e.transitions|
  {
    Editor(e.states, Filter(e.transitions, (t: Transition) => t.id != id))
  }

  lemma RemoveTransitionValid(e: Editor, id: string)
    requires Valid(e)
    ensures Valid(RemoveTransition(e, id))
  {
    FilterUniquePairs(e.transitions, (t: Transition) => t.id != id);
  }

  /** In a valid editor transition ids are unique, because they spell out the ordered pair. */
  lemma ValidTransitionIdsUnique(e: Editor, i: nat, j: nat)
    requires Valid(e)
    requires i < j < |e.transitions|
    ensures e.transitions[i].id != e.transitions[j].id
  {
    var a := e.transitions[i];
    var b := e.transitions[j];
    assert a in e.transitions && b in e.transitions;
    var sa := Find(e.states, a.from).value;
    var sb := Find(e.states, b.from).value;
    StateKeyHasNoArrow(sa.variant, sa.level, sa.position);
    StateKeyHasNoArrow(sb.variant, sb.level, sb.position);
    TransitionIdInjective(a.from, a.to, b.from, b.to);
  }

  lemma {:induction false} FilterOutUniqueId(ts: seq<Transition>, id: string)
    requires forall i, j :: 0 <= i < j < |ts| ==> ts[i].id != ts[j].id
    ensures |Filter(ts, (t: Transition) => t.id != id)| + 1 >= |ts|
  {
    if ts != [] {
      var keep := (t: Transition) => t.id != id;
      assert Filter(ts, keep) == (if keep(ts[0]) then [ts[0]] else []) + Filter(ts[1..], keep);
      if ts[0].id == id {
        forall t | t in ts[1..]
          ensures keep(t)
        {
          var j :| 0 <= j < |ts[1..]| && ts[1..][j] == t;
          assert ts[j + 1] == t;
        }
        FilterAll(ts[1..], keep);
      } else {
        FilterOutUniqueId(ts[1..], id);
      }
    }
  }

  /** In a valid editor `removeTransition` removes at most one transition. */
  lemma RemoveTransitionRemovesAtMostOne(e: Editor, id: string)
    requires Valid(e)
    ensures |RemoveTransition(e, id).transitions| + 1 >= |e.transitions|
  {
    forall i, j | 0 <= i < j < |e.transitions|
      ensures e.transitions[i].id != e.transitions[j].id
    {
      ValidTransitionIdsUnique(e, i, j);
    }
    FilterOutUniqueId(e.transitions, id);
  }

  /** In a valid editor removing the id of the `i`-th transition cuts out exactly that transition, the rest in order. */
  lemma RemoveTransitionSplice(e: Editor, i: nat)
    requires Valid(e) && i < |e.transitions|
    ensures RemoveTransition(e, e.transitions[i].id).transitions == e.transitions[..i] + e.transitions[i + 1..]
  {
    var id := e.transitions[i].id;
    forall j | 0 <= j < |e.transitions| && j != i
      ensures e.transitions[j].id != id
    {
      if j < i {
        ValidTransitionIdsUnique(e, j, i);
      } else {
        ValidTransitionIdsUnique(e, i, j);
      }
    }
    FilterDropsOne(e.transitions, (t: Transition) => t.id != id, i);
  }

  /** Removing an id no transition has leaves the editor as it is. */
  lemma RemoveTransitionAbsent(e: Editor, id: string)
    requires forall t :: t in e.transitions ==> t.id != id
    ensures RemoveTransition(e, id) == e
  {
    FilterAll(e.transitions, (t: Transition) => t.id != id);
  }

  // ---------------------------------------------------------------------
  // Sequences of edits

  /** One user action of the editor. */
  datatype Command =
    | AddStateCommand(level: Level, position: Position, variant: Variant)
    | AddVariantCommand(variant: Variant)
    | RemoveStateCommand(id: string)
    | UpdateStateCommand(id: string, patch: Patch)
    | AddTransitionCommand(fromId: string, toId: string, caption: Option<string>)
    | RemoveTransitionCommand(id: string)

  function Step(e: Editor, c: Command): Editor {
    match c
    case AddStateCommand(l, p, v) => AddVariantState(e, l, p, v)
    case AddVariantCommand(v) => AddFullVariant(e, v)
    case RemoveStateCommand(id) => RemoveState(e, id)
    case UpdateStateCommand(id, u) => UpdateState(e, id, u)
    case AddTransitionCommand(f, t, caption) => AddTransition(e, f, t, caption)
    case RemoveTransitionCommand(id) => RemoveTransition(e, id)
  }

  function Run(e: Editor, cs: seq<Command>): Editor
    decreases |cs|
  {
    if cs == [] then e else Run(Step(e, cs[0]), cs[1..])
  }

  lemma StepValid(e: Editor, c: Command)
    requires Valid(e)
    ensures Valid(Step(e, c))
  {
    match c
    case AddStateCommand(l, p, v) => AddVariantStateValid(e, l, p, v);
    case AddVariantCommand(v) => AddFullVariantValid(e, v);
    case RemoveStateCommand(id) => RemoveStateValid(e, id);
    case UpdateStateCommand(id, u) => UpdateStateValid(e, id, u);
    case AddTransitionCommand(f, t, caption) => AddTransitionValid(e, f, t, caption);
    case RemoveTransitionCommand(id) => RemoveTransitionValid(e, id);
  }

  /**
   * Every editor reachable from the initial one by any sequence of actions is
   * valid: all 30 base states are still there and no transition dangles.
   */
  lemma {:induction false} RunValid(e: Editor, cs: seq<Command>)
    requires Valid(e)
    ensures Valid(Run(e, cs))
    decreases |cs|
  {
    if cs != [] {
      StepValid(e, cs[0]);
      RunValid(Step(e, cs[0]), cs[1..]);
    }
  }

  lemma ReachableValid(cs: seq<Command>)
    ensures Valid(Run(Initial(), cs))
    ensures forall l: Level, p: Position :: HasId(Run(Initial(), cs).states, StateKey(Normaal, l, p))
  {
    InitialValid();
    RunValid(Initial(), cs);
  }
}
