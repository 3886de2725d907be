/** The keyed slot table shared by both sides: each of sixteen fixed code
    triples, taken in sorted order, gets a slot in 0..15 chosen by hashing
    the key with the triple and probing forward past slots already taken.
    SHA-256 is not modelled: `digest` stands for
    `int(hashlib.sha256(s.encode()).hexdigest(), 16)`. */
module KeyedPermutation {
  import Text

  import opened Wrappers

  type Triple = (nat, nat, nat)

  /** The sixteen triples in the order the source lists them. */
  const Tuples: seq<Triple> := [
    (10, 4, 5), (9, 5, 1), (12, 4, 5), (10, 6, 1), (11, 7, 1), (9, 8, 1),
    (15, 4, 7), (14, 6, 1), (9, 4, 6), (13, 4, 5), (12, 6, 1), (12, 2, 7),
    (11, 5, 1), (15, 5, 1), (15, 4, 5), (14, 5, 1)
  ]

  /** `sorted(tuples)`. */
  const SortedTuples: seq<Triple> := [
    (9, 4, 6), (9, 5, 1), (9, 8, 1), (10, 4, 5), (10, 6, 1), (11, 5, 1),
    (11, 7, 1), (12, 2, 7), (12, 4, 5), (12, 6, 1), (13, 4, 5), (14, 5, 1),
    (14, 6, 1), (15, 4, 5), (15, 4, 7), (15, 5, 1)
  ]

  /** Python's ordering of tuples: lexicographic. */
  predicate Less(a: Triple, b: Triple)
  {
    a.0 < b.0 || (a.0 == b.0 && (a.1 < b.1 || (a.1 == b.1 && a.2 < b.2)))
  }

  /** `SortedTuples` is strictly increasing. */
  lemma SortedTuplesSorted()
    ensures |SortedTuples| == 16
    ensures forall k | 0 <= k < 15 :: Less(SortedTuples[k], SortedTuples[k + 1])
  {
  }

  /** `SortedTuples` holds the same triples as the source's list. */
  lemma SortedTuplesSameTriples()
    ensures |Tuples| == 16
    ensures forall t :: t in Tuples <==> t in SortedTuples
  {
  }

  lemma LessTransitive(a: Triple, b: Triple, c: Triple)
    requires Less(a, b) && Less(b, c)
    ensures Less(a, c)
  {
  }

  /** Any two positions of `SortedTuples` are in order, so its triples are distinct. */
  lemma {:induction false} SortedTuplesOrdered(i: nat, j: nat)
    requires i < j < 16
    ensures Less(SortedTuples[i], SortedTuples[j])
    ensures SortedTuples[i] != SortedTuples[j]
    decreases j - i
  {
    SortedTuplesSorted();
    if i + 1 < j {
      SortedTuplesOrdered(i + 1, j);
      LessTransitive(SortedTuples[i], SortedTuples[i + 1], SortedTuples[j]);
    }
  }

  // ------------------------------------------------------------------ slots

  /** The slots `0..n-1`. */
  function Range(n: nat): (r: set<nat>)
    ensures forall x: nat :: x in r <==> x < n
    ensures |r| == n
  {
    if n == 0 then {} else Range(n - 1) + {n - 1}
  }

  /** The sixteen slots. */
  const AllSlots: set<nat> := Range(16)

  /** Every slot of `used` is below `n`. */
  predicate Below(used: set<nat>, n: nat)
  {
    forall v | v in used :: v < n
  }

  /** A set of fewer than `n` slots below `n` leaves one of them free. */
  lemma FreeSlot(used: set<nat>, n: nat) returns (f: nat)
    requires Below(used, n) && |used| < n
    ensures f < n && f !in used
  {
    var free := Range(n) - used;
    assert Range(n) == used + free;
    f :| f in free;
  }

  /** A set of `n` slots below `n` is all of them. */
  lemma FullSlots(used: set<nat>, n: nat)
    requires Below(used, n) && |used| == n
    ensures used == Range(n)
  {
    var free := Range(n) - used;
    assert Range(n) == used + free;
    assert |free| == 0;
  }

  /** The slot `mapped` after `d` steps of `mapped = (mapped + 1) % 16` from `s`. */
  function Step(s: nat, d: nat): nat { (s + d) % 16 }

  /** How many steps `while mapped in used: mapped = (mapped + 1) % 16` takes
      from `s`, counting on from `d`; 16 means every slot was taken. */
  function ProbeOffset(used: set<nat>, s: nat, d: nat): (k: nat)
    requires d <= 16
    ensures d <= k <= 16
    ensures forall j | d <= j < k :: Step(s, j) in used
    ensures k < 16 ==> Step(s, k) !in used
    decreases 16 - d
  {
    if d == 16 || Step(s, d) !in used then d else ProbeOffset(used, s, d + 1)
  }

  /** Sixteen steps from any slot visit every slot. */
  lemma StepsCoverSlots(s: nat, f: nat)
    requires s < 16 && f < 16
    ensures 0 <= (f - s) % 16 < 16 && Step(s, (f - s) % 16) == f
  {
    if f >= s {
      assert (f - s) % 16 == f - s;
    } else {
      assert (f - s) % 16 == f - s + 16;
    }
  }

  /** When a slot is free, probing stops within sixteen steps. */
  lemma ProbeStops(used: set<nat>, s: nat)
    requires s < 16 && Below(used, 16) && |used| < 16
    ensures ProbeOffset(used, s, 0) < 16
  {
    var f := FreeSlot(used, 16);
    StepsCoverSlots(s, f);
  }

  /** The slot linear probing settles on from `s`. */
  function Probe(used: set<nat>, s: nat): (r: nat)
    ensures r < 16
  {
    Step(s, ProbeOffset(used, s, 0))
  }

  /** The starting slot of triple `t`: the hash of the key followed by `str(t)`, modulo 16. */
  function HashSlot(key: string, digest: string -> nat, t: Triple): (s: nat)
    ensures s < 16
  {
    digest(key + TupleText(t)) % 16
  }

  /** `str(t)` for a triple: `(a, b, c)`. */
  function TupleText(t: Triple): string
  {
    "(" + Text.Decimal(t.0) + ", " + Text.Decimal(t.1) + ", " + Text.Decimal(t.2) + ")"
  }

  // ------------------------------------------------------------- the table

  /** The dict `mapping` and the set `used` as `generate_mapping` builds them. */
  datatype Assignment = Assignment(table: map<Triple, nat>, used: set<nat>)

  /** The state after the first `n` triples of `sorted(tuples)` have been placed. */
  function Assign(key: string, digest: string -> nat, n: nat): Assignment
    requires n <= 16
  {
    if n == 0 then Assignment(map[], {})
    else
      var a := Assign(key, digest, n - 1);
      var t := SortedTuples[n - 1];
      var slot := Probe(a.used, HashSlot(key, digest, t));
      Assignment(a.table[t := slot], a.used + {slot})
  }

  /** What placing the first `n` triples keeps true: the table's keys are
      exactly those triples, each holds a slot in `used`, no two hold the same
      slot, every slot in `used` is held, and `used` has `n` of the sixteen slots. */
  ghost predicate Placed(a: Assignment, n: nat)
    requires n <= 16
  {
    && |a.used| == n && Below(a.used, 16)
    && HoldsFirst(a.table, n)
    && InSlots(a.table, a.used)
    && Injective(a.table)
    && Covers(a.table, a.used)
  }

  /** The keys of `table` are the first `n` sorted triples. */
  ghost predicate HoldsFirst(table: map<Triple, nat>, n: nat)
    requires n <= 16
  {
    forall t :: t in table <==> t in SortedTuples[..n]
  }

  /** Every key of `table` holds a slot of `slots`. */
  ghost predicate InSlots(table: map<Triple, nat>, slots: set<nat>)
  {
    forall t | t in table :: table[t] in slots
  }

  /** No two keys of `table` share a slot. */
  ghost predicate Injective(table: map<Triple, nat>)
  {
    forall t1, t2 | t1 in table && t2 in table && t1 != t2 :: table[t1] != table[t2]
  }

  /** Every slot of `slots` is held by some key of `table`. */
  ghost predicate Covers(table: map<Triple, nat>, slots: set<nat>)
  {
    forall v | v in slots :: exists t | t in table :: table[t] == v
  }

  /** The triple placed at step `n` is not yet in the table. */
  lemma NextIsNew(table: map<Triple, nat>, n: nat)
    requires n < 16 && HoldsFirst(table, n)
    ensures SortedTuples[n] !in table
  {
    if SortedTuples[n] in table {
      var k :| 0 <= k < n && SortedTuples[k] == SortedTuples[n];
      SortedTuplesOrdered(k, n);
      assert false;
    }
  }

  lemma HoldsFirstStep(table: map<Triple, nat>, n: nat, slot: nat)
    requires n < 16 && HoldsFirst(table, n)
    ensures HoldsFirst(table[SortedTuples[n] := slot], n + 1)
  {
    assert SortedTuples[..n + 1] == SortedTuples[..n] + [SortedTuples[n]];
  }

  lemma InjectiveStep(table: map<Triple, nat>, used: set<nat>, t: Triple, slot: nat)
    requires Injective(table) && t !in table
    requires InSlots(table, used) && slot !in used
    ensures Injective(table[t := slot])
  {
  }

  lemma InSlotsStep(table: map<Triple, nat>, used: set<nat>, t: Triple, slot: nat)
    requires InSlots(table, used)
    ensures InSlots(table[t := slot], used + {slot})
  {
  }

  lemma UsedStep(used: set<nat>, n: nat, slot: nat)
    requires |used| == n && Below(used, 16)
    requires slot < 16 && slot !in used
    ensures |used + {slot}| == n + 1 && Below(used + {slot}, 16)
  {
  }

  lemma CoversStep(table: map<Triple, nat>, used: set<nat>, t: Triple, slot: nat)
    requires Covers(table, used) && t !in table
    ensures Covers(table[t := slot], used + {slot})
  {
    var b := table[t := slot];
    forall v | v in used + {slot}
      ensures exists t' | t' in b :: b[t'] == v
    {
      if v == slot {
        assert b[t] == v;
      } else {
        var t' :| t' in table && table[t'] == v;
        assert b[t'] == v;
      }
    }
  }

  /** Before the loop nothing is placed. */
  lemma PlacedInitial()
    ensures Placed(Assignment(map[], {}), 0)
  {
    assert SortedTuples[..0] == [];
  }

  /** Placing the next triple into a free slot keeps `Placed`. */
  lemma PlacedStep(a: Assignment, n: nat, slot: nat)
    requires n < 16 && Placed(a, n)
    requires slot < 16 && slot !in a.used
    ensures Placed(Assignment(a.table[SortedTuples[n] := slot], a.used + {slot}), n + 1)
  {
    var t := SortedTuples[n];
    NextIsNew(a.table, n);
    HoldsFirstStep(a.table, n, slot);
    InjectiveStep(a.table, a.used, t, slot);
    CoversStep(a.table, a.used, t, slot);
    InSlotsStep(a.table, a.used, t, slot);
    UsedStep(a.used, n, slot);
  }

  /** Every prefix of the loop places its triples injectively into fresh slots. */
  lemma {:induction false} AssignPlaced(key: string, digest: string -> nat, n: nat)
    requires n <= 16
    ensures Placed(Assign(key, digest, n), n)
  {
    if n == 0 {
      PlacedInitial();
    } else {
      AssignPlaced(key, digest, n - 1);
      var a := Assign(key, digest, n - 1);
      var s := HashSlot(key, digest, SortedTuples[n - 1]);
      ProbeStops(a.used, s);
      PlacedStep(a, n - 1, Probe(a.used, s));
    }
  }

  /** The table `generate_mapping(key)` returns. */
  function Table(key: string, digest: string -> nat): map<Triple, nat>
  {
    Assign(key, digest, 16).table
  }

  /** A table covering `n` slots below `n` covers all of them. */
  lemma CoversRange(table: map<Triple, nat>, used: set<nat>, n: nat)
    requires Below(used, n) && |used| == n
    requires InSlots(table, used) && Covers(table, used)
    ensures InSlots(table, Range(n)) && Covers(table, Range(n))
  {
    FullSlots(used, n);
  }

  /** Once all sixteen triples are placed, the table's keys are the listed triples. */
  lemma HoldsAll(table: map<Triple, nat>)
    requires HoldsFirst(table, 16)
    ensures forall t :: t in table <==> t in Tuples
  {
    SortedTuplesSameTriples();
    assert SortedTuples[..|SortedTuples|] == SortedTuples;
  }

  /** For every key and every hash, the table is a bijection from the
      sixteen listed triples onto the slots 0..15. */
  lemma TableIsBijection(key: string, digest: string -> nat)
    ensures forall t :: t in Table(key, digest) <==> t in Tuples
    ensures forall t | t in Table(key, digest) :: Table(key, digest)[t] < 16
    ensures Injective(Table(key, digest))
    ensures Covers(Table(key, digest), AllSlots)
  {
    var a := Assign(key, digest, 16);
    AssignPlaced(key, digest, 16);
    HoldsAll(a.table);
    CoversRange(a.table, a.used, 16);
  }

  /** Every triple, in the order the table's items are listed, is a key. */
  lemma TableKeys(key: string, digest: string -> nat)
    ensures forall t | t in SortedTuples :: t in Table(key, digest)
  {
    TableIsBijection(key, digest);
    SortedTuplesSameTriples();
  }

  // -------------------------------------------------------------- the loop

  /** One more step of `mapped = (mapped + 1) % 16`. */
  lemma StepNext(s: nat, d: nat)
    ensures (Step(s, d) + 1) % 16 == Step(s, d + 1)
  {
  }

  /** Before triple `n` is placed, `used` holds `n` slots below 16. */
  lemma AssignRoom(key: string, digest: string -> nat, n: nat)
    requires n < 16
    ensures |Assign(key, digest, n).used| == n < 16 && Below(Assign(key, digest, n).used, 16)
  {
    AssignPlaced(key, digest, n);
  }

  lemma StepZero(s: nat)
    requires s < 16
    ensures Step(s, 0) == s
  {
  }

  /** A slot still taken before the probe's end is passed over. */
  lemma ProbeContinues(used: set<nat>, s: nat, d: nat)
    requires d <= ProbeOffset(used, s, 0) < 16 && Step(s, d) in used
    ensures d + 1 <= ProbeOffset(used, s, 0)
  {
  }

  /** The probe loop stops at the first free slot, which is `Probe`. */
  lemma ProbeSettles(used: set<nat>, s: nat, d: nat)
    requires d <= ProbeOffset(used, s, 0) && Step(s, d) !in used
    ensures Step(s, d) == Probe(used, s)
  {
  }

  /** `while mapped in used: mapped = (mapped + 1) % 16`, from `start`. */
  method ProbeLoop(used: set<nat>, start: nat) returns (mapped: nat)
    requires start < 16 && Below(used, 16) && |used| < 16
    ensures mapped == Probe(used, start)
    ensures mapped < 16 && mapped !in used
  {
    mapped := start;
    ProbeStops(used, start);
    ghost var d := 0;
    StepZero(start);
    while mapped in used
      invariant d <= ProbeOffset(used, start, 0) < 16
      invariant mapped == Step(start, d)
      decreases 16 - d
    {
      ProbeContinues(used, start, d);
      StepNext(start, d);
      mapped := (mapped + 1) % 16;
      d := d + 1;
    }
    ProbeSettles(used, start, d);
  }

  /** `generate_mapping(key)`: the triples in sorted order, each given the
      first free slot at or after its hash modulo 16. */
  method GenerateMapping(key: string, digest: string -> nat) returns (mapping: map<Triple, nat>)
    ensures mapping == Table(key, digest)
  {
    mapping := map[];
    var used: set<nat> := {};
    var n := 0;
    while n < |SortedTuples|
      invariant n <= 16
      invariant Assignment(mapping, used) == Assign(key, digest, n)
    {
      var t := SortedTuples[n];
      var hval := digest(key + TupleText(t));
      AssignRoom(key, digest, n);
      var mapped := ProbeLoop(used, hval % 16);
      used := used + {mapped};
      mapping := mapping[t := mapped];
      n := n + 1;
    }
  }

  // ------------------------------------------------------------ the inverse

  /** The search `for t, mapped in mapping.items(): if val == mapped: ...; break`
      from position `i` of the dict's insertion order, which is `sorted(tuples)`. */
  function FindSlotFrom(table: map<Triple, nat>, v: nat, i: nat): (r: Option<Triple>)
    requires i <= 16
    ensures r.Some? ==> r.value in table && table[r.value] == v
    ensures r.None? ==> forall k | i <= k < 16 :: SortedTuples[k] in table ==> table[SortedTuples[k]] != v
    decreases 16 - i
  {
    if i == 16 then None
    else if SortedTuples[i] in table && table[SortedTuples[i]] == v then Some(SortedTuples[i])
    else FindSlotFrom(table, v, i + 1)
  }

  /** The triple whose slot is `v`, if any. */
  function Unmap(table: map<Triple, nat>, v: nat): Option<Triple>
  {
    FindSlotFrom(table, v, 0)
  }

  /** Every slot 0..15 has a triple in the table. */
  lemma UnmapFinds(key: string, digest: string -> nat, v: nat)
    requires v < 16
    ensures Unmap(Table(key, digest), v).Some?
  {
    var table := Table(key, digest);
    TableIsBijection(key, digest);
    assert v in AllSlots;
    var t :| t in table && table[t] == v;
    SortedTuplesSameTriples();
    var k :| 0 <= k < 16 && SortedTuples[k] == t;
  }

  /** Looking up a triple's slot gives the triple back: `Unmap` inverts the table. */
  lemma UnmapInverts(key: string, digest: string -> nat, t: Triple)
    requires t in Tuples
    ensures t in Table(key, digest)
    ensures Unmap(Table(key, digest), Table(key, digest)[t]) == Some(t)
  {
    var table := Table(key, digest);
    TableIsBijection(key, digest);
    UnmapFinds(key, digest, table[t]);
  }

  /** Slots 16 and above have no triple. */
  lemma UnmapMisses(key: string, digest: string -> nat, v: nat)
    requires v >= 16
    ensures Unmap(Table(key, digest), v).None?
  {
    TableIsBijection(key, digest);
  }
}
