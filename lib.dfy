/** The library entry points of `lib.rs`: the duplicate check, the sort by block, the
    one-network list and the CSV escaping of a field.

    Reading the records from the cache is input; here the records are a parameter. */
module Lib {
  import opened Results
  import opened Ipv4Cidr
  import opened Records
  import opened Lists
  import opened Orders
  import opened Vnets

  // ----- check_for_duplicate_subnets -----

  /** No two records share a block and a subscription id. */
  predicate NoDuplicateKeys(data: seq<Subnet>) {
    forall i, j :: 0 <= i < j < |data| ==> CidrSubscription(data[i]) != CidrSubscription(data[j])
  }

  /** Record `j` is the first whose block and subscription id an earlier record already
      has: the records before it are free of duplicates and one of them shares its key. */
  predicate FirstRepeat(data: seq<Subnet>, j: nat) {
    j < |data| && NoDuplicateKeys(data[..j])
    && exists i :: 0 <= i < j && CidrSubscription(data[i]) == CidrSubscription(data[j])
  }

  /** `check_for_duplicate_subnets`: succeeds exactly when no two records share a block
      and a subscription id; otherwise fails at the second record of the first pair
      found, in input order. */
  method CheckForDuplicateSubnets(data: seq<Subnet>) returns (r: Result<()>)
    ensures r.Ok? <==> NoDuplicateKeys(data)
    ensures r.Err? ==>
      r.fault.Error? && r.fault.msg.DuplicateFound? && FirstRepeat(data, r.fault.msg.index)
  {
    var seen: set<(Option<Ipv4>, string)> := {};
    for i := 0 to |data|
      invariant seen == set k | 0 <= k < i :: CidrSubscription(data[k])
      invariant NoDuplicateKeys(data[..i])
    {
      var key := CidrSubscription(data[i]);
      if key in seen {
        return Err(Error(DuplicateFound(i)));
      }
      seen := seen + {key};
      assert forall k :: 0 <= k < i ==> data[..i + 1][k] == data[..i][k];
    }
    assert data[..|data|] == data;
    return Ok(());
  }

  /** There is only one first repeat, so the failure names a single record. */
  lemma FirstRepeatUnique(data: seq<Subnet>, j1: nat, j2: nat)
    requires FirstRepeat(data, j1) && FirstRepeat(data, j2)
    ensures j1 == j2
  {
    if j1 < j2 {
      NoRepeatBefore(data, j2, j1);
      assert false;
    } else if j2 < j1 {
      NoRepeatBefore(data, j1, j2);
      assert false;
    }
  }

  /** Before a duplicate-free prefix ends, no record repeats an earlier one. */
  lemma NoRepeatBefore(data: seq<Subnet>, j: nat, k: nat)
    requires j <= |data| && NoDuplicateKeys(data[..j]) && k < j
    ensures forall i :: 0 <= i < k ==> CidrSubscription(data[i]) != CidrSubscription(data[k])
  {
    forall i | 0 <= i < k
      ensures CidrSubscription(data[i]) != CidrSubscription(data[k])
    {
      assert data[..j][i] == data[i] && data[..j][k] == data[k];
    }
  }

  // ----- get_sorted_subnets -----

  /** `get_sorted_subnets`, after the records are read: sorted by block, records
      without a block first, records with equal blocks in their input order, and
      nothing added or lost. */
  method GetSortedSubnets(data: seq<Subnet>) returns (r: Result<seq<Subnet>>)
    ensures r.Ok?
    ensures SortedBy(r.value, CidrOf, OptCidrLe)
    ensures multiset(r.value) == multiset(data)
    ensures forall c :: Retain(r.value, KeyIs(CidrOf, c)) == Retain(data, KeyIs(CidrOf, c))
    ensures forall i, j :: 0 <= i < j < |r.value| && r.value[j].subnetCidr.None? ==>
      r.value[i].subnetCidr.None?
  {
    var sorted := data;
    sorted := SortByKey(sorted, CidrOf, OptCidrLe);
    OptCidrTotalOrder();
    SortByKeySorted(data, CidrOf, OptCidrLe);
    forall c {
      SortByKeyStable(data, CidrOf, OptCidrLe, c);
    }
    return Ok(sorted);
  }

  // ----- get_vnets -----

  /** `get_vnets` of the library: a list holding only the network of the first record;
      without records, `first().unwrap()` aborts. */
  method GetVnets(data: seq<Subnet>) returns (r: Result<VnetList>)
    ensures r.Err? <==> |data| == 0
    ensures r.Err? ==> r.fault == Panic(UnwrapNone)
    ensures r.Ok? ==>
      fresh(r.value) && r.value.vnets == map[VnetSubscriptionName(data[0]) := NewVnet(data[0], 0)]
  {
    var vnets := new VnetList();
    if |data| == 0 {
      return Err(Panic(UnwrapNone));
    }
    vnets.AddVnet(data, 0);
    return Ok(vnets);
  }

  // ----- _escape_csv_field -----

  /** Every `"` doubled. */
  function DoubleQuotes(s: string): (r: string)
    ensures |r| >= |s|
  {
    if |s| == 0 then ""
    else (if s[0] == '"' then "\"\"" else [s[0]]) + DoubleQuotes(s[1..])
  }

  /** `_escape_csv_field`: a field with a comma or a double quote is put in double
      quotes with its own double quotes doubled; any other field is left as it is. */
  function EscapeCsvField(input: string): (r: string) {
    if ',' in input || '"' in input then "\"" + DoubleQuotes(input) + "\"" else input
  }

  /** Undoes `DoubleQuotes`: every `""` read as one `"`; a lone `"` is malformed. */
  function UndoubleQuotes(s: string): (r: Option<string>) {
    if |s| == 0 then Some("")
    else if s[0] != '"' then
      match UndoubleQuotes(s[1..])
      case None => None
      case Some(t) => Some([s[0]] + t)
    else if |s| >= 2 && s[1] == '"' then
      match UndoubleQuotes(s[2..])
      case None => None
      case Some(t) => Some("\"" + t)
    else None
  }

  /** Reading a CSV field back: a quoted field loses its quotes and its doubled quotes
      are undone; any other field is read as it is. */
  function UnescapeCsvField(field: string): (r: Option<string>) {
    if |field| >= 2 && field[0] == '"' && field[|field| - 1] == '"' then
      UndoubleQuotes(field[1..|field| - 1])
    else Some(field)
  }

  lemma {:induction false} UndoubleDouble(s: string)
    ensures UndoubleQuotes(DoubleQuotes(s)) == Some(s)
  {
    if |s| > 0 {
      UndoubleDouble(s[1..]);
      var rest := DoubleQuotes(s[1..]);
      if s[0] == '"' {
        var d := "\"\"" + rest;
        assert DoubleQuotes(s) == d;
        assert d[0] == '"' && d[1] == '"' && d[2..] == rest;
        assert s == "\"" + s[1..];
      } else {
        var d := [s[0]] + rest;
        assert DoubleQuotes(s) == d;
        assert d[0] == s[0] && d[1..] == rest;
        assert s == [s[0]] + s[1..];
      }
    }
  }

  /** Every field reads back as the value it was escaped from. */
  lemma EscapeRoundTrip(input: string)
    ensures UnescapeCsvField(EscapeCsvField(input)) == Some(input)
  {
    if ',' in input || '"' in input {
      var d := DoubleQuotes(input);
      UndoubleDouble(input);
      assert ("\"" + d + "\"")[1..|d| + 1] == d;
    }
  }

  /** A field is left unchanged exactly when it has neither a comma nor a double
      quote. */
  lemma EscapeUnchanged(input: string)
    ensures EscapeCsvField(input) == input <==> ',' !in input && '"' !in input
  {
    if ',' in input || '"' in input {
      assert |EscapeCsvField(input)| >= |input| + 2;
    }
  }
}
