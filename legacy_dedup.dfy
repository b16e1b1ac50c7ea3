/** The legacy de-duplication of `de_duplicate_subnets.rs`. It walks the records in
    their given order and removes, in place, the records without a block, two kinds of
    placeholder subnet, and a record whose block repeats the block of the last record
    kept when it also has that record's names; a repeat under other names, or two
    records in a row with the same source position, abort the run.

    The records are meant to arrive sorted by block, so that every repeat is adjacent:
    on sorted records the blocks kept strictly increase. */
module LegacyDedup {
  import opened Results
  import opened Ipv4Cidr
  import opened Records
  import opened Lists
  import opened Orders

  /** `default_subnet_names_to_ignore` of the legacy module; it differs from the current
      list in one name. */
  function LegacyDefaultNames(): (names: seq<string>)
    ensures |names| == 8 && "twggmcmg" in names && "orggmcmg" !in names
  {
    ["default", "jenkinsarm-snet", "pkrsn1ooslfxj77", "pkrsn8jufz9plf6", "pkrsnsnajtq3h3i",
     "pkrsnxocivqofa6", "twggmcmg", "restore-vm-subnet"]
  }

  /** 10.0.0.0/24, the block of the placeholder subnets removed by name. */
  const PLACEHOLDER_BLOCK: Ipv4 := Ipv4(0x0A00_0000, 24)
  /** 10.1.1.0/24, the block of the restore subnet. */
  const RESTORE_BLOCK: Ipv4 := Ipv4(0x0A01_0100, 24)
  /** 11.2.0.0/32, the block the walk starts from before any record is kept. */
  const START_BLOCK: Ipv4 := Ipv4(0x0B02_0000, 32)
  /** The source position the walk starts from. */
  const START_POSITION: (nat, nat) := (0, 9999)

  /** What the walk remembers: the records kept so far, the block and the record last
      kept, and the source position of the record last examined. */
  datatype Walk = Walk(kept: seq<Subnet>, cidr: Ipv4, prev: Subnet, dup: (nat, nat))

  function Start(): Walk {
    Walk([], START_BLOCK, DefaultSubnet(), START_POSITION)
  }

  function Position(s: Subnet): (nat, nat) {
    (s.srcIndex, s.blockId)
  }

  /** A record removed before its block is compared: no block, a placeholder on
      10.0.0.0/24 with a name to ignore, or the restore subnet on 10.1.1.0/24. */
  predicate Skipped(s: Subnet, names: seq<string>) {
    s.subnetCidr.None?
    || (s.subnetCidr == Some(PLACEHOLDER_BLOCK) && s.subnetName in names)
    || (s.subnetCidr == Some(RESTORE_BLOCK) && s.subnetName == "restore-vm-subnet")
  }

  /** One pass of the loop body over record `s`. */
  function Step(w: Walk, s: Subnet, names: seq<string>): Result<Walk> {
    if Position(s) == w.dup then Err(Panic(DuplicateSrcIndex(w.dup.0, w.dup.1)))
    else if Skipped(s, names) then Ok(w.(dup := Position(s)))
    else if w.cidr == s.subnetCidr.value then
      if w.prev.subnetName == s.subnetName && w.prev.subscriptionName == s.subscriptionName
      then Ok(w.(dup := Position(s)))
      else Err(Panic(ConflictingDuplicate(w.cidr.addr, w.cidr.mask)))
    else Ok(Walk(w.kept + [s], s.subnetCidr.value, s, Position(s)))
  }

  /** The walk over `xs`, record by record; the first abort ends it. */
  function Run(xs: seq<Subnet>, names: seq<string>): Result<Walk>
    decreases |xs|
  {
    if |xs| == 0 then Ok(Start())
    else
      var w :- Run(xs[..|xs| - 1], names);
      Step(w, xs[|xs| - 1], names)
  }

  /** `de_duplicate_subnets` of the legacy module: the records left in place, or the
      abort. With no names given the legacy default list is used. */
  method DeDuplicateSubnets(input: seq<Subnet>, ignore: Option<seq<string>>)
    returns (r: Result<seq<Subnet>>)
    ensures var run := Run(input, ignore.GetOr(LegacyDefaultNames()));
      (r.Ok? <==> run.Ok?)
      && (r.Ok? ==> r.value == run.value.kept)
      && (r.Err? ==> r.fault == run.fault)
  {
    var names := ignore.GetOr(LegacyDefaultNames());
    var data := input;
    var cidr := START_BLOCK;
    var prev := DefaultSubnet();
    var dup := START_POSITION;
    var i := 0;
    ghost var n := 0;
    while i < |data|
      invariant 0 <= i <= |data| && n <= |input|
      invariant data[i..] == input[n..]
      invariant Run(input[..n], names) == Ok(Walk(data[..i], cidr, prev, dup))
      decreases |data| - i
    {
      var s := data[i];
      Advance(data, i, input, n);
      ghost var next := Step(Walk(data[..i], cidr, prev, dup), s, names);
      RunSnoc(input, n, names);
      if Position(s) == dup {
        RunAbort(input, n + 1, names);
        return Err(Panic(DuplicateSrcIndex(dup.0, dup.1)));
      }
      dup := Position(s);
      if s.subnetCidr.None? {
        Removed(data, i);
        data := data[..i] + data[i + 1..];
        n := n + 1;
        continue;
      }
      if s.subnetCidr == Some(PLACEHOLDER_BLOCK) && s.subnetName in names {
        Removed(data, i);
        data := data[..i] + data[i + 1..];
        n := n + 1;
        continue;
      }
      if s.subnetCidr == Some(RESTORE_BLOCK) && s.subnetName in ["restore-vm-subnet"] {
        Removed(data, i);
        data := data[..i] + data[i + 1..];
        n := n + 1;
        continue;
      }
      if cidr == s.subnetCidr.value {
        if prev.subnetName == s.subnetName && prev.subscriptionName == s.subscriptionName {
          Removed(data, i);
          data := data[..i] + data[i + 1..];
          n := n + 1;
          continue;
        } else {
          RunAbort(input, n + 1, names);
          return Err(Panic(ConflictingDuplicate(cidr.addr, cidr.mask)));
        }
      }
      assert next == Ok(Walk(data[..i + 1], s.subnetCidr.value, s, dup)) by {
        assert data[..i + 1] == data[..i] + [s];
      }
      cidr := s.subnetCidr.value;
      prev := data[i];
      i := i + 1;
      n := n + 1;
    }
    assert input[..n] == input;
    return Ok(data);
  }

  /** The walk over one more record: one more step, unless it has already aborted. */
  lemma RunSnoc(xs: seq<Subnet>, k: nat, names: seq<string>)
    requires k < |xs|
    ensures Run(xs[..k + 1], names) ==
      if Run(xs[..k], names).Err? then Run(xs[..k], names)
      else Step(Run(xs[..k], names).value, xs[k], names)
  {
    assert xs[..k + 1][..k] == xs[..k];
  }

  /** Once the walk aborts, the records after do not matter. */
  lemma {:induction false} RunAbort(xs: seq<Subnet>, k: nat, names: seq<string>)
    requires k <= |xs| && Run(xs[..k], names).Err?
    ensures Run(xs, names) == Run(xs[..k], names)
    decreases |xs| - k
  {
    if k < |xs| {
      RunSnoc(xs, k, names);
      RunAbort(xs, k + 1, names);
    } else {
      assert xs[..k] == xs;
    }
  }

  /** The records still to examine, one further on. */
  lemma Advance(data: seq<Subnet>, i: nat, input: seq<Subnet>, n: nat)
    requires i < |data| && n <= |input| && data[i..] == input[n..]
    ensures n < |input| && input[n] == data[i] && data[i + 1..] == input[n + 1..]
  {
    assert data[i..][0] == data[i];
    assert data[i..][1..] == data[i + 1..];
  }

  /** Removing the record at `i` leaves the records before it and shifts those after. */
  lemma Removed(data: seq<Subnet>, i: nat)
    requires i < |data|
    ensures (data[..i] + data[i + 1..])[..i] == data[..i]
    ensures (data[..i] + data[i + 1..])[i..] == data[i + 1..]
  {
  }

  // ----- what the walk keeps -----

  /** The block and record remembered are those of the last record kept, or the start
      values while nothing is kept. */
  predicate RemembersLast(w: Walk) {
    (|w.kept| == 0 ==> w.cidr == START_BLOCK && w.prev == DefaultSubnet())
    && (|w.kept| > 0 ==> w.prev == w.kept[|w.kept| - 1] && w.prev.subnetCidr == Some(w.cidr))
  }

  /** The position remembered is that of the last record examined. */
  predicate RemembersPosition(w: Walk, xs: seq<Subnet>) {
    w.dup == if |xs| == 0 then START_POSITION else Position(xs[|xs| - 1])
  }

  /** No record examined has the position of the one before it, and the first does not
      have the start position. */
  predicate PositionsChange(xs: seq<Subnet>) {
    (|xs| > 0 ==> Position(xs[0]) != START_POSITION)
    && forall k :: 0 < k < |xs| ==> Position(xs[k - 1]) != Position(xs[k])
  }

  /** No record kept is one of those removed outright, and two records kept in a row
      have different blocks. */
  predicate KeptClean(kept: seq<Subnet>, names: seq<string>) {
    (forall k :: 0 <= k < |kept| ==> !Skipped(kept[k], names))
    && forall k :: 0 < k < |kept| ==> kept[k - 1].subnetCidr != kept[k].subnetCidr
  }

  /** Every record with a block that is not removed outright has its block on a record
      kept, unless it is on the start block. */
  predicate BlocksCovered(xs: seq<Subnet>, kept: seq<Subnet>, names: seq<string>) {
    forall x :: x in xs && !Skipped(x, names) ==>
      x.subnetCidr == Some(START_BLOCK)
      || exists k :: 0 <= k < |kept| && kept[k].subnetCidr == x.subnetCidr
  }

  ghost predicate WalkInvariant(w: Walk, xs: seq<Subnet>, names: seq<string>) {
    IsSubsequence(w.kept, xs) && RemembersLast(w) && RemembersPosition(w, xs)
    && PositionsChange(xs) && KeptClean(w.kept, names) && BlocksCovered(xs, w.kept, names)
  }

  /** What a walk that does not abort has done: the records left are some of the input
      records in their order; none lacks a block or is a placeholder; no two in a row
      share a block; every other input record shares its block with a record left
      (or is on the start block); and no two input records in a row share a source
      position. */
  lemma {:induction false} RunInvariant(xs: seq<Subnet>, names: seq<string>)
    ensures Run(xs, names).Ok? ==> WalkInvariant(Run(xs, names).value, xs, names)
    decreases |xs|
  {
    if |xs| > 0 {
      var init := xs[..|xs| - 1];
      RunInvariant(init, names);
      if Run(init, names).Ok? {
        assert xs == init + [xs[|xs| - 1]];
        StepInvariant(Run(init, names).value, init, xs[|xs| - 1], names);
      }
    }
  }

  lemma StepInvariant(w: Walk, xs: seq<Subnet>, s: Subnet, names: seq<string>)
    requires WalkInvariant(w, xs, names)
    ensures Step(w, s, names).Ok? ==> WalkInvariant(Step(w, s, names).value, xs + [s], names)
  {
    if Step(w, s, names).Ok? {
      var v := Step(w, s, names).value;
      StepKeeps(w, s, names);
      SubsequenceSnoc(w.kept, xs, s);
      PositionsSnoc(xs, s);
      StepCovers(w, xs, s, names);
    }
  }

  /** A step that does not abort keeps `s` exactly when it differs from the last block
      kept and is not removed outright, and keeps what it remembers up to date. */
  lemma StepKeeps(w: Walk, s: Subnet, names: seq<string>)
    requires RemembersLast(w) && KeptClean(w.kept, names) && Step(w, s, names).Ok?
    ensures var v := Step(w, s, names).value;
      Position(s) != w.dup && v.dup == Position(s)
      && RemembersLast(v) && KeptClean(v.kept, names)
      && (v.kept == w.kept || v.kept == w.kept + [s])
      && (v.kept == w.kept + [s] <==> !Skipped(s, names) && s.subnetCidr != Some(w.cidr))
  {
    var v := Step(w, s, names).value;
    if v.kept != w.kept {
      assert v.kept[..|w.kept|] == w.kept;
    }
  }

  lemma PositionsSnoc(xs: seq<Subnet>, s: Subnet)
    requires PositionsChange(xs)
    requires Position(s) != if |xs| == 0 then START_POSITION else Position(xs[|xs| - 1])
    ensures PositionsChange(xs + [s])
  {
    var ys := xs + [s];
    forall k | 0 < k < |ys|
      ensures Position(ys[k - 1]) != Position(ys[k])
    {
      if k < |xs| {
        assert ys[k - 1] == xs[k - 1] && ys[k] == xs[k];
      }
    }
  }

  lemma StepCovers(w: Walk, xs: seq<Subnet>, s: Subnet, names: seq<string>)
    requires RemembersLast(w) && BlocksCovered(xs, w.kept, names) && Step(w, s, names).Ok?
    requires var v := Step(w, s, names).value;
      (v.kept == w.kept || v.kept == w.kept + [s])
      && (v.kept == w.kept + [s] <==> !Skipped(s, names) && s.subnetCidr != Some(w.cidr))
    ensures BlocksCovered(xs + [s], Step(w, s, names).value.kept, names)
  {
    var v := Step(w, s, names).value;
    var ys := xs + [s];
    forall x | x in ys && !Skipped(x, names)
      ensures x.subnetCidr == Some(START_BLOCK)
        || exists k :: 0 <= k < |v.kept| && v.kept[k].subnetCidr == x.subnetCidr
    {
      if x != s {
        assert x in xs;
        if x.subnetCidr != Some(START_BLOCK) {
          var k :| 0 <= k < |w.kept| && w.kept[k].subnetCidr == x.subnetCidr;
          assert v.kept[k] == w.kept[k];
        }
      } else if v.kept != w.kept {
        assert v.kept[|w.kept|] == s;
      } else if |w.kept| > 0 {
        assert w.kept[|w.kept| - 1].subnetCidr == x.subnetCidr;
      }
    }
  }

  // ----- sorted input -----

  /** Blocks strictly increase along the records. */
  predicate BlocksIncrease(kept: seq<Subnet>) {
    forall i, j :: 0 <= i < j < |kept| ==>
      kept[i].subnetCidr.Some? && kept[j].subnetCidr.Some?
      && Less(kept[i].subnetCidr.value, kept[j].subnetCidr.value)
  }

  /** On records sorted by block, as the callers pass them, a walk that does not abort
      keeps each block once: the blocks kept strictly increase. */
  lemma {:induction false} RunSortedIncreasing(xs: seq<Subnet>, names: seq<string>)
    requires SortedBy(xs, CidrOf, OptCidrLe)
    ensures Run(xs, names).Ok? ==> BlocksIncrease(Run(xs, names).value.kept)
    decreases |xs|
  {
    if |xs| > 0 && Run(xs, names).Ok? {
      var init := xs[..|xs| - 1];
      var s := xs[|xs| - 1];
      assert SortedBy(init, CidrOf, OptCidrLe) by {
        forall i, j | 0 <= i < j < |init|
          ensures OptCidrLe(CidrOf(init[i]), CidrOf(init[j]))
        {
          assert init[i] == xs[i] && init[j] == xs[j];
        }
      }
      RunSortedIncreasing(init, names);
      RunInvariant(init, names);
      var w := Run(init, names).value;
      StepKeeps(w, s, names);
      var v := Step(w, s, names).value;
      if v.kept != w.kept && |w.kept| > 0 {
        var last := w.kept[|w.kept| - 1];
        SubsequenceMembers(w.kept, init);
        var h :| 0 <= h < |init| && init[h] == last;
        assert OptCidrLe(CidrOf(xs[h]), CidrOf(xs[|xs| - 1]));
        AppendIncreasing(w.kept, s);
      }
    }
  }

  /** Appending a block above the last block kept keeps the blocks increasing. */
  lemma AppendIncreasing(kept: seq<Subnet>, s: Subnet)
    requires BlocksIncrease(kept) && |kept| > 0
    requires kept[|kept| - 1].subnetCidr.Some? && s.subnetCidr.Some?
    requires LessEq(kept[|kept| - 1].subnetCidr.value, s.subnetCidr.value)
    requires kept[|kept| - 1].subnetCidr != s.subnetCidr
    ensures BlocksIncrease(kept + [s])
  {
    var ks := kept + [s];
    forall i, j | 0 <= i < j < |ks|
      ensures ks[i].subnetCidr.Some? && ks[j].subnetCidr.Some?
        && Less(ks[i].subnetCidr.value, ks[j].subnetCidr.value)
    {
      if j == |kept| && i < |kept| - 1 {
        assert Less(kept[i].subnetCidr.value, kept[|kept| - 1].subnetCidr.value);
      }
    }
  }

  // ----- aborts -----

  /** Two records in a row with the same source position abort the walk, naming that
      position, unless it has aborted earlier. */
  lemma RepeatedPositionAborts(xs: seq<Subnet>, k: nat, names: seq<string>)
    requires 0 < k < |xs| && Position(xs[k - 1]) == Position(xs[k]) && Run(xs[..k], names).Ok?
    ensures Run(xs, names) == Err(Panic(DuplicateSrcIndex(xs[k].srcIndex, xs[k].blockId)))
  {
    RunInvariant(xs[..k], names);
    RunSnoc(xs, k, names);
    RunAbort(xs, k + 1, names);
  }

  /** A walk that does not abort had no two records in a row with the same position. */
  lemma RunOkPositionsChange(xs: seq<Subnet>, names: seq<string>)
    requires Run(xs, names).Ok?
    ensures forall k :: 0 < k < |xs| ==> Position(xs[k - 1]) != Position(xs[k])
  {
    RunInvariant(xs, names);
  }

  // ----- examples -----

  /** A record with the given names, block and source position. */
  function Record(name: string, subscription: string, cidr: Option<Ipv4>, src: nat, block: nat): Subnet {
    Subnet("vnet", [], name, cidr, None, "eastus", None, "id", subscription, None, None, src, block)
  }

  /** A repeat under the same names is removed, a record without a block is removed,
      and the next block is kept. */
  lemma WalkExample()
    ensures var a := Record("app", "prod", Some(Ipv4(0x0A00_0000, 24)), 0, 1);
      var c := Record("db", "prod", Some(Ipv4(0x0A02_0000, 24)), 1, 3);
      var run := Run([a, a.(srcIndex := 1), Record("x", "prod", None, 1, 2), c], []);
      run.Ok? && run.value.kept == [a, c]
  {
    var a := Record("app", "prod", Some(Ipv4(0x0A00_0000, 24)), 0, 1);
    var b := Record("x", "prod", None, 1, 2);
    var c := Record("db", "prod", Some(Ipv4(0x0A02_0000, 24)), 1, 3);
    var xs := [a, a.(srcIndex := 1), b, c];
    assert xs[..1] == [a] && [a][..0] == [];
    assert !Skipped(a, []);
    assert Position(a) != Start().dup;
    assert Start().cidr != a.subnetCidr.value;
    assert Start().kept + [a] == [a];
    assert Step(Start(), a, []) == Ok(Walk([a], a.subnetCidr.value, a, (0, 1)));
    assert Run([], []) == Ok(Start());
    assert Run(xs[..1], []) == Ok(Walk([a], a.subnetCidr.value, a, (0, 1)));
    assert xs[..2][..1] == xs[..1];
    assert Run(xs[..2], []) == Ok(Walk([a], a.subnetCidr.value, a, (1, 1)));
    assert xs[..3][..2] == xs[..2];
    assert Run(xs[..3], []) == Ok(Walk([a], a.subnetCidr.value, a, (1, 2)));
    assert xs[..3] == xs[..|xs| - 1];
  }

  /** Before anything is kept the walk compares with its start values, so a first
      record on 11.2.0.0/32 aborts as a repeat of a block nobody had... */
  lemma StartBlockAborts()
    ensures Run([Record("app", "prod", Some(START_BLOCK), 1, 1)], [])
      == Err(Panic(ConflictingDuplicate(START_BLOCK.addr, 32)))
  {
  }

  /** ... and is dropped without trace when its names match the default record's. */
  lemma StartBlockDropped()
    ensures Run([Record("", "blank", Some(START_BLOCK), 1, 1)], []) == Ok(Walk([], START_BLOCK, DefaultSubnet(), (1, 1)))
  {
  }

  /** Likewise a first record at source position (0, 9999) aborts. */
  lemma StartPositionAborts()
    ensures Run([Record("app", "prod", Some(Ipv4(0x0A00_0000, 16)), 0, 9999)], [])
      == Err(Panic(DuplicateSrcIndex(0, 9999)))
  {
  }
}
