/**
 * Step 4 of `process`: one generator of short names is shared by the sorted
 * class names and then the sorted id names; names that might clash with HTML
 * tags are skipped, and a name is only renamed when its short name is
 * strictly shorter.
 */
module RenameMaps {
  import opened ShortNames

  /** Single-letter names kept free because they are common HTML tags. */
  const Reserved: set<string> := {"a", "b", "i", "s", "p", "q", "u"}

  /** The positions in the stream of the reserved names. */
  predicate IsReservedIndex(n: nat) {
    n == 0 || n == 1 || n == 8 || n == 15 || n == 16 || n == 18 || n == 20
  }

  lemma ReservedIndices(n: nat)
    ensures ShortName(n) in Reserved <==> IsReservedIndex(n)
  {
    SingleLetters(n);
    if n < Base {
      assert ShortName(n) == [Letter(n)];
    }
  }

  /** The first position at or after `n` whose name is not reserved. */
  function NextFree(n: nat): (m: nat)
    ensures n <= m && !IsReservedIndex(m)
    ensures forall k :: n <= k < m ==> IsReservedIndex(k)
  {
    if n <= 1 then 2
    else if n == 8 then 9
    else if n == 15 || n == 16 then 17
    else if n == 18 then 19
    else if n == 20 then 21
    else n
  }

  /**
   * The position of the name handed to the `i`-th candidate (classes first,
   * then ids): the `i`-th position whose name is not reserved, as
   * `FreeIndexDraws` shows.
   */
  function FreeIndex(i: nat): (n: nat)
    ensures i <= n && !IsReservedIndex(n)
  {
    if i < 6 then i + 2
    else if i < 12 then i + 3
    else if i == 12 then 17
    else if i == 13 then 19
    else i + 7
  }

  /** How far the generator has advanced after `i` candidates. */
  function Drawn(i: nat): nat {
    if i == 0 then 0 else FreeIndex(i - 1) + 1
  }

  lemma FreeIndexIncreasing(i: nat, j: nat)
    requires i < j
    ensures FreeIndex(i) < FreeIndex(j)
  {
  }

  /** No two candidates receive the same name, and none receives a reserved one. */
  lemma FreeNames(i: nat, j: nat)
    ensures ShortName(FreeIndex(i)) !in Reserved
    ensures ShortName(FreeIndex(i)) == ShortName(FreeIndex(j)) <==> i == j
  {
    ReservedIndices(FreeIndex(i));
    ShortNameInjective(FreeIndex(i), FreeIndex(j));
    if i < j {
      FreeIndexIncreasing(i, j);
    } else if j < i {
      FreeIndexIncreasing(j, i);
    }
  }

  /** The name the `k`-th candidate would receive. */
  function Candidate(k: nat): string {
    ShortName(FreeIndex(k))
  }

  /** `next(name_gen)`, repeated while the name is reserved. */
  method NextUnreserved(n: nat) returns (short: string, next: nat)
    ensures short == ShortName(NextFree(n)) && next == NextFree(n) + 1
  {
    short := ShortNameLoop(n);
    next := n + 1;
    ReservedIndices(n);
    while short in Reserved
      invariant n < next <= NextFree(n) + 1
      invariant short == ShortName(next - 1)
      invariant short in Reserved <==> IsReservedIndex(next - 1)
      decreases 21 - next
    {
      short := ShortNameLoop(next);
      ReservedIndices(next);
      next := next + 1;
    }
  }

  /**
   * The `k`-th of `names` is renamed when its candidate saves characters and
   * is not in `taken`. The source checks only the length (`taken` empty);
   * the corrected maps also refuse a candidate that is already one of the
   * names, see `RenameMapsAsWrittenCollide`.
   */
  predicate Saves(names: seq<string>, offset: nat, k: nat, taken: set<string>)
    requires k < |names|
  {
    |Candidate(offset + k)| < |names[k]| && Candidate(offset + k) !in taken
  }

  /** The map one loop of `process` builds from `names`, drawing candidates from position `offset` on. */
  function RenameMap(names: seq<string>, offset: nat, taken: set<string>): (m: map<string, string>)
    ensures forall c :: c in m ==> c in names
  {
    if names == [] then map[]
    else
      var k := |names| - 1;
      var m := RenameMap(names[..k], offset, taken);
      if Saves(names, offset, k, taken) then m[names[k] := Candidate(offset + k)] else m
  }

  predicate Distinct(names: seq<string>) {
    forall i, j :: 0 <= i < j < |names| ==> names[i] != names[j]
  }

  /** One of the two loops of `process`: draws a name per candidate and keeps it when it saves characters. */
  method AssignNames(names: seq<string>, offset: nat, start: nat, taken: set<string>) returns (m: map<string, string>, next: nat)
    requires start == Drawn(offset)
    ensures m == RenameMap(names, offset, taken)
    ensures next == Drawn(offset + |names|)
  {
    m := map[];
    next := start;
    var i := 0;
    while i < |names|
      invariant 0 <= i <= |names|
      invariant next == Drawn(offset + i)
      invariant m == RenameMap(names[..i], offset, taken)
    {
      FreeIndexDraws(offset + i);
      var short;
      short, next := NextUnreserved(next);
      var ext := names[..i + 1];
      assert ext[..i] == names[..i] && ext[i] == names[i];
      if |short| < |names[i]| && short !in taken {
        m := m[names[i] := short];
      }
      i := i + 1;
    }
    assert names[..i] == names;
  }

  /** The names of `names` as a set. */
  function Names(names: seq<string>): set<string> {
    set c | c in names
  }

  /**
   * Step 4 of `process` on the sorted class names and the sorted id names,
   * corrected so that a name is never renamed onto a name of its own kind.
   */
  method BuildRenameMaps(classes: seq<string>, ids: seq<string>) returns (classMap: map<string, string>, idMap: map<string, string>)
    requires Distinct(classes) && Distinct(ids)
    ensures classMap == RenameMap(classes, 0, Names(classes)) && idMap == RenameMap(ids, |classes|, Names(ids))
    ensures forall c :: c in classMap ==> classMap[c] !in Reserved && |classMap[c]| < |c|
    ensures forall c :: c in idMap ==> idMap[c] !in Reserved && |idMap[c]| < |c|
    ensures forall c, d :: c in classMap && d in classMap && c != d ==> classMap[c] != classMap[d]
    ensures forall c, d :: c in idMap && d in idMap && c != d ==> idMap[c] != idMap[d]
    ensures forall c, d :: c in classMap && d in idMap ==> classMap[c] != idMap[d]
  {
    var next;
    classMap, next := AssignNames(classes, 0, 0, Names(classes));
    idMap, next := AssignNames(ids, |classes|, next, Names(ids));
    RenamedShorter(classes, 0, Names(classes));
    RenamedShorter(ids, |classes|, Names(ids));
    RenamedInjective(classes, 0, Names(classes));
    RenamedInjective(ids, |classes|, Names(ids));
    RenamedApart(classes, ids, Names(classes), Names(ids));
  }

  /** Every renamed name is one of `names`, and maps to that name's candidate. */
  lemma {:induction false} RenameMapIndex(names: seq<string>, offset: nat, taken: set<string>, c: string) returns (k: nat)
    requires c in RenameMap(names, offset, taken)
    ensures k < |names| && names[k] == c && Saves(names, offset, k, taken)
    ensures RenameMap(names, offset, taken)[c] == Candidate(offset + k)
  {
    var last := |names| - 1;
    var init := names[..last];
    if Saves(names, offset, last, taken) && names[last] == c {
      k := last;
    } else {
      k := RenameMapIndex(init, offset, taken, c);
      assert names[k] == init[k];
    }
  }

  lemma DistinctInit(names: seq<string>)
    requires Distinct(names) && |names| > 0
    ensures Distinct(names[..|names| - 1])
  {
    var init := names[..|names| - 1];
    forall i, j | 0 <= i < j < |init|
      ensures init[i] != init[j]
    {
      assert init[i] == names[i] && init[j] == names[j];
    }
  }

  /** A name whose candidate saves characters is renamed. */
  lemma {:induction false} RenameMapContains(names: seq<string>, offset: nat, taken: set<string>, k: nat)
    requires k < |names| && Saves(names, offset, k, taken)
    ensures names[k] in RenameMap(names, offset, taken)
  {
    var last := |names| - 1;
    var init := names[..last];
    if k < last {
      assert init[k] == names[k];
      assert Saves(init, offset, k, taken);
      RenameMapContains(init, offset, taken, k);
      assert names[k] in RenameMap(init, offset, taken);
    }
  }

  /** Every distinct name whose candidate saves characters is renamed to that candidate. */
  lemma RenameMapHas(names: seq<string>, offset: nat, taken: set<string>, k: nat)
    requires Distinct(names) && k < |names| && Saves(names, offset, k, taken)
    ensures names[k] in RenameMap(names, offset, taken)
    ensures RenameMap(names, offset, taken)[names[k]] == Candidate(offset + k)
  {
    RenameMapContains(names, offset, taken, k);
    var j := RenameMapIndex(names, offset, taken, names[k]);
  }

  /** Exactly the names whose candidate is strictly shorter are renamed. */
  lemma RenameMapKeys(names: seq<string>, offset: nat, taken: set<string>, c: string)
    requires Distinct(names)
    ensures c in RenameMap(names, offset, taken) <==>
      exists k :: 0 <= k < |names| && names[k] == c && Saves(names, offset, k, taken)
  {
    if c in RenameMap(names, offset, taken) {
      var k := RenameMapIndex(names, offset, taken, c);
    }
    if exists k :: 0 <= k < |names| && names[k] == c && Saves(names, offset, k, taken) {
      var k :| 0 <= k < |names| && names[k] == c && Saves(names, offset, k, taken);
      RenameMapHas(names, offset, taken, k);
    }
  }

  /** Renamed names are neither reserved nor as long as the original. */
  lemma RenamedShorter(names: seq<string>, offset: nat, taken: set<string>)
    ensures var m := RenameMap(names, offset, taken);
      forall c :: c in m ==> m[c] !in Reserved && |m[c]| < |c|
  {
    var m := RenameMap(names, offset, taken);
    forall c | c in m
      ensures m[c] !in Reserved && |m[c]| < |c|
    {
      var k := RenameMapIndex(names, offset, taken, c);
      FreeNames(offset + k, offset + k);
    }
  }

  /** Different names in one map are renamed differently. */
  lemma RenamedInjective(names: seq<string>, offset: nat, taken: set<string>)
    ensures var m := RenameMap(names, offset, taken);
      forall c, d :: c in m && d in m && c != d ==> m[c] != m[d]
  {
    var m := RenameMap(names, offset, taken);
    forall c, d | c in m && d in m && c != d
      ensures m[c] != m[d]
    {
      RenamedPairApart(names, offset, taken, c, d);
    }
  }

  lemma RenamedPairApart(names: seq<string>, offset: nat, taken: set<string>, c: string, d: string)
    requires c in RenameMap(names, offset, taken) && d in RenameMap(names, offset, taken) && c != d
    ensures RenameMap(names, offset, taken)[c] != RenameMap(names, offset, taken)[d]
  {
    var k := RenameMapIndex(names, offset, taken, c);
    var l := RenameMapIndex(names, offset, taken, d);
    assert k != l;
    FreeNames(offset + k, offset + l);
  }

  /** A class and an id never receive the same short name. */
  lemma RenamedApart(classes: seq<string>, ids: seq<string>, classTaken: set<string>, idTaken: set<string>)
    ensures var classMap := RenameMap(classes, 0, classTaken);
      var idMap := RenameMap(ids, |classes|, idTaken);
      forall c, d :: c in classMap && d in idMap ==> classMap[c] != idMap[d]
  {
    var classMap := RenameMap(classes, 0, classTaken);
    var idMap := RenameMap(ids, |classes|, idTaken);
    forall c, d | c in classMap && d in idMap
      ensures classMap[c] != idMap[d]
    {
      var k := RenameMapIndex(classes, 0, classTaken, c);
      var l := RenameMapIndex(ids, |classes|, idTaken, d);
      FreeIndexIncreasing(k, |classes| + l);
      ShortNameInjective(FreeIndex(k), FreeIndex(|classes| + l));
    }
  }

  /** Each candidate takes the first unreserved position after the one before it. */
  lemma FreeIndexDraws(i: nat)
    ensures FreeIndex(i) == NextFree(Drawn(i))
  {
  }

  /** `class_map.get(c, c)`: the name a class or id is written as after renaming. */
  function Rename(m: map<string, string>, c: string): (r: string)
    ensures c in m ==> r == m[c]
    ensures c !in m ==> r == c
  {
    if c in m then m[c] else c
  }

  /** With the corrected maps no two different names end up written the same. */
  lemma RenameMapRenamesApart(names: seq<string>, offset: nat, c: string, d: string)
    requires Distinct(names) && c in names && d in names
    ensures var m := RenameMap(names, offset, Names(names));
      Rename(m, c) == Rename(m, d) <==> c == d
  {
    var taken := Names(names);
    var m := RenameMap(names, offset, taken);
    RenamedInjective(names, offset, taken);
    if c in m {
      var k := RenameMapIndex(names, offset, taken, c);
    }
    if d in m {
      var l := RenameMapIndex(names, offset, taken, d);
    }
  }

  /**
   * As written, the loop may rename a class onto a class it leaves alone:
   * of the classes `ab` and `c`, `ab` draws the candidate `c` and is renamed to
   * it, while `c` keeps its name because `d` saves nothing.
   */
  lemma RenameMapsAsWrittenCollide()
    ensures var m := RenameMap(["ab", "c"], 0, {});
      "ab" in m && "c" !in m && Rename(m, "ab") == Rename(m, "c")
  {
    SingleLetters(2);
    SingleLetters(3);
    var names := ["ab", "c"];
    assert names[..1] == ["ab"];
    assert Candidate(0) == "c" && Candidate(1) == "d";
  }
}
