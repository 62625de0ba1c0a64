/**
 * The fixed coordinate space of the Roofvogel (bird of prey) state table:
 * five levels, six positions and three variants, the textual keys and
 * labels built from a coordinate triple, and the transition axes.
 */
module Coordinates {
  import opened Decimal

  /** A level of the board, `LEVELS = [0, 1, 2, 3, 4]`. */
  type Level = l: int | 0 <= l <= 4

  /** A position on the board, `POSITIONS = [13, ..., 18]`. */
  type Position = p: int | 13 <= p <= 18 witness 13

  /** `normaal` is the base variant; `ζ` and `η` are overlay variants. */
  datatype Variant = Normaal | Zeta | Eta

  /** Number of (level, position) cells of one variant. */
  const GridSize: nat := 30

  /** The variant's name as the source spells it. */
  function VariantName(v: Variant): (name: string)
    ensures |name| > 0
    ensures '-' !in name && '→' !in name
    ensures v == Normaal <==> |name| == 7
  {
    match v
    case Normaal => "normaal"
    case Zeta => "ζ"
    case Eta => "η"
  }

  lemma VariantNameInjective(v: Variant, w: Variant)
    ensures VariantName(v) == VariantName(w) ==> v == w
  {
  }

  type Cell = (Level, Position)

  /**
   * The `i`-th cell the source's nested loops visit: levels outermost,
   * positions innermost, so six cells per level.
   */
  function CellAt(i: nat): (c: Cell)
    requires i < GridSize
    ensures 6 * c.0 + c.1 - 13 == i
  {
    (i / 6, 13 + i % 6)
  }

  /** All 30 cells in the order of the nested loops over `LEVELS` and `POSITIONS`. */
  function Grid(): (grid: seq<Cell>)
    ensures |grid| == GridSize
    ensures forall i :: 0 <= i < GridSize ==> grid[i] == CellAt(i)
  {
    seq(GridSize, (i: int) requires 0 <= i < GridSize => CellAt(i))
  }

  /** Every cell is visited. */
  lemma GridComplete(l: Level, p: Position)
    ensures (l, p) in Grid()
  {
    var i := l * 6 + p - 13;
    assert Grid()[i] == (l, p);
  }

  /** The loops visit cell `(l, p)` at step `6 * l + p - 13`, and no other step visits it. */
  lemma CellAtInjective(i: nat, j: nat)
    requires i < GridSize && j < GridSize
    ensures CellAt(i) == CellAt(j) <==> i == j
  {
    if CellAt(i) == CellAt(j) {
      assert i == 6 * (i / 6) + i % 6 && j == 6 * (j / 6) + j % 6;
    }
  }

  predicate DistinctCells(cs: seq<Cell>) {
    forall i, j :: 0 <= i < j < |cs| ==> cs[i] != cs[j]
  }

  lemma DistinctTail(cs: seq<Cell>)
    requires DistinctCells(cs) && |cs| > 0
    ensures DistinctCells(cs[1..]) && cs[0] !in cs[1..]
  {
    var t := cs[1..];
    assert forall k :: 0 <= k < |t| ==> t[k] == cs[k + 1];
  }

  /** Each cell occurs once in the grid. */
  lemma GridDistinct()
    ensures DistinctCells(Grid())
  {
    forall i, j | 0 <= i < j < GridSize
      ensures Grid()[i] != Grid()[j]
    {
      CellAtInjective(i, j);
    }
  }

  /** The state id `variant-level-position`. */
  function StateKey(v: Variant, l: Level, p: Position): (k: string)
    ensures VariantName(v) + "-" <= k
  {
    VariantName(v) + "-" + NatToString(l) + "-" + NatToString(p)
  }

  /** The key spelled out character by character: a name, then `-L-PP`. */
  lemma StateKeyShape(v: Variant, l: Level, p: Position)
    ensures StateKey(v, l, p) == VariantName(v) + ['-', DigitChar(l), '-', '1', DigitChar(p - 10)]
  {
    OneDigit(l);
    TwoDigits(p);
  }

  /** Distinct triples have distinct ids, so keying states by id keys them by triple. */
  lemma StateKeyInjective(v: Variant, l: Level, p: Position, w: Variant, m: Level, q: Position)
    ensures StateKey(v, l, p) == StateKey(w, m, q) <==> v == w && l == m && p == q
  {
    if StateKey(v, l, p) == StateKey(w, m, q) {
      StateKeyShape(v, l, p);
      StateKeyShape(w, m, q);
      var k := StateKey(v, l, p);
      var n := |VariantName(v)|;
      assert |VariantName(w)| == n;
      assert VariantName(v) == k[..n] == VariantName(w);
      VariantNameInjective(v, w);
      assert DigitChar(l) == k[n + 1] == DigitChar(m);
      assert DigitChar(p - 10) == k[n + 4] == DigitChar(q - 10);
    }
  }

  /** A state id never contains the arrow that joins two ids into a transition id. */
  lemma StateKeyHasNoArrow(v: Variant, l: Level, p: Position)
    ensures '→' !in StateKey(v, l, p)
  {
    StateKeyShape(v, l, p);
  }

  /** `fullLabel`: `L<level> P<position>`, with ` [<variant>]` for an overlay variant. */
  function FullLabel(v: Variant, l: Level, p: Position): (r: string)
    ensures |r| > 0 && r[0] == 'L'
    ensures v != Normaal <==> r[|r| - 1] == ']'
  {
    if v == Normaal then "L" + NatToString(l) + " P" + NatToString(p)
    else "L" + NatToString(l) + " P" + NatToString(p) + " [" + VariantName(v) + "]"
  }

  /** `shortLabel`: `L<level>P<position>`, prefixed by the overlay variant's name. */
  function ShortLabel(v: Variant, l: Level, p: Position): (r: string)
    ensures |r| > 0 && (v == Normaal <==> r[0] == 'L')
    ensures IsDigit(r[|r| - 1])
  {
    (if v == Normaal then "" else VariantName(v)) + "L" + NatToString(l) + "P" + NatToString(p)
  }

  /** Short labels identify states. */
  lemma ShortLabelInjective(v: Variant, l: Level, p: Position, w: Variant, m: Level, q: Position)
    ensures ShortLabel(v, l, p) == ShortLabel(w, m, q) <==> v == w && l == m && p == q
  {
    if ShortLabel(v, l, p) == ShortLabel(w, m, q) {
      OneDigit(l); TwoDigits(p); OneDigit(m); TwoDigits(q);
      var a := ShortLabel(v, l, p);
      var n := |a| - 5;
      assert n == (if v == Normaal then 0 else 1) == (if w == Normaal then 0 else 1);
      assert DigitChar(l) == a[n + 1] == DigitChar(m);
      assert DigitChar(p - 10) == a[n + 4] == DigitChar(q - 10);
      if v != Normaal {
        assert VariantName(v) == a[..1] == VariantName(w);
        VariantNameInjective(v, w);
      }
    }
  }

  /** `toLowerCase` on one character, for the characters short labels and typed labels are compared on: ASCII capitals become small. */
  function Lower(c: char): (r: char)
    ensures !('A' <= r <= 'Z')
    ensures 'A' <= c <= 'Z' ==> 'a' <= r <= 'z' && r as int - 'a' as int == c as int - 'A' as int
    ensures !('A' <= c <= 'Z') ==> r == c
  {
    if 'A' <= c <= 'Z' then (c as int + 32) as char else c
  }

  /** `toLowerCase` on a string, character by character. */
  function LowerAll(s: string): (r: string)
    ensures |r| == |s| && forall i :: 0 <= i < |s| ==> r[i] == Lower(s[i])
  {
    seq(|s|, (i: int) requires 0 <= i < |s| => Lower(s[i]))
  }

  /** The characters a short label is made of. */
  predicate LabelChar(c: char) {
    IsDigit(c) || c == 'L' || c == 'P' || c == 'ζ' || c == 'η'
  }

  lemma ShortLabelChars(v: Variant, l: Level, p: Position)
    ensures forall i :: 0 <= i < |ShortLabel(v, l, p)| ==> LabelChar(ShortLabel(v, l, p)[i])
  {
    OneDigit(l); TwoDigits(p);
    var prefix := if v == Normaal then "" else VariantName(v);
    assert ShortLabel(v, l, p) == prefix + ['L', DigitChar(l), 'P', DigitChar(p / 10), DigitChar(p % 10)];
  }

  /** Lower-casing loses nothing on strings made of label characters. */
  lemma LowerAllInjectiveOnLabels(s: string, t: string)
    requires forall i :: 0 <= i < |s| ==> LabelChar(s[i])
    requires forall i :: 0 <= i < |t| ==> LabelChar(t[i])
    requires LowerAll(s) == LowerAll(t)
    ensures s == t
  {
    forall i | 0 <= i < |s|
      ensures s[i] == t[i]
    {
      assert Lower(s[i]) == LowerAll(s)[i] == LowerAll(t)[i] == Lower(t[i]);
    }
  }

  /**
   * The transitions table finds the state a typed label names by comparing the
   * lower-cased labels: different states never compare equal, so the lookup
   * finds at most one triple.
   */
  lemma NormalisedShortLabelInjective(v: Variant, l: Level, p: Position, w: Variant, m: Level, q: Position)
    ensures LowerAll(ShortLabel(v, l, p)) == LowerAll(ShortLabel(w, m, q)) <==> v == w && l == m && p == q
  {
    if LowerAll(ShortLabel(v, l, p)) == LowerAll(ShortLabel(w, m, q)) {
      ShortLabelChars(v, l, p);
      ShortLabelChars(w, m, q);
      LowerAllInjectiveOnLabels(ShortLabel(v, l, p), ShortLabel(w, m, q));
      ShortLabelInjective(v, l, p, w, m, q);
    }
  }

  /** The full label spelled out: `L`, the level digit, ` P1`, the last position digit, then the overlay suffix. */
  lemma FullLabelShape(v: Variant, l: Level, p: Position)
    ensures FullLabel(v, l, p) ==
      ['L', DigitChar(l), ' ', 'P', '1', DigitChar(p - 10)] + (if v == Normaal then [] else " [" + VariantName(v) + "]")
  {
    OneDigit(l);
    TwoDigits(p);
  }

  /** Full labels identify states too. */
  lemma FullLabelInjective(v: Variant, l: Level, p: Position, w: Variant, m: Level, q: Position)
    ensures FullLabel(v, l, p) == FullLabel(w, m, q) <==> v == w && l == m && p == q
  {
    if FullLabel(v, l, p) == FullLabel(w, m, q) {
      FullLabelShape(v, l, p);
      FullLabelShape(w, m, q);
      var a := FullLabel(v, l, p);
      assert (v == Normaal) == (|a| == 6) == (w == Normaal);
      assert DigitChar(l) == a[1] == DigitChar(m);
      assert DigitChar(p - 10) == a[5] == DigitChar(q - 10);
      if v != Normaal {
        assert VariantName(v) == a[8..9] == VariantName(w);
        VariantNameInjective(v, w);
      }
    }
  }

  /** Which coordinate a transition changes. */
  datatype Axis = LevelAxis | PositionAxis | VariantAxis | NoAxis

  /** `transitionIcon`: the glyph shown for, and the default label of, a transition on an axis. */
  function TransitionIcon(axis: Axis): (icon: string)
    ensures |icon| == 1
  {
    match axis
    case LevelAxis => "↕"
    case PositionAxis => "↔"
    case VariantAxis => "⟳"
    case NoAxis => "→"
  }

  /** Each axis has its own icon, so a default label tells the axis. */
  lemma TransitionIconInjective(a: Axis, b: Axis)
    ensures TransitionIcon(a) == TransitionIcon(b) <==> a == b
  {
  }
}
