/** The CSV report of `output/csv.rs`: the records walked in order by
    `process_subnet_row`, from 10.0.0.0 and a previous vnet block 0.0.0.0/24, and every
    row printed as thirteen fixed-width fields separated by commas.

    Printing is output; here the lines printed are returned beside the outcome, and a
    panic ends the output where it happens. */
module Csv {
  import opened Results
  import opened Ipv4Cidr
  import opened Records
  import opened Text
  import opened Terminal
  import opened GapFinder

  /** 10.0.0.0, where the report starts looking for gaps. */
  const REPORT_START: Addr := 0x0A00_0000
  /** 0.0.0.0/24, the previous vnet block before the first record. */
  const START_VNET: Ipv4 := Ipv4(0, 24)
  /** 10.17.255.255, the `SKIP_SUBNET_SMALLER_THAN` each report names in its last line. */
  const SKIP_SUBNET_SMALLER_THAN: Addr := 0x0A11_FFFF

  // ----- the walk over the records -----

  /** The state after walking `data` in order, with every row produced so far; the
      first abort ends the walk. */
  function Report(data: seq<Subnet>, gapMask: Byte): Result<Walked>
    decreases |data|
  {
    if |data| == 0 then Ok(Walked(REPORT_START, START_VNET, []))
    else
      var w :- Report(data[..|data| - 1], gapMask);
      var step :- ProcessSubnetRowSpec(data[|data| - 1], |data| - 1, w.next, w.vnetPrevious, gapMask);
      Ok(Walked(step.next, step.vnetPrevious, w.rows + step.rows))
  }

  // ----- one row -----

  /** The widths of the thirteen fields, in their order. */
  const WIDTHS: seq<nat> := [6, 8, 18, 12, 19, 24, 21, 24, 30, 16, 13, 13, 39]

  /** The thirteen values of a row as they are put in their fields. */
  function RowValues(row: Row): (values: seq<string>)
    ensures |values| == |WIDTHS|
  {
    [NatToString(row.j), row.gap, row.subnetCidr,
     NatToString(row.ipConfigurationsCount) + "/" + NatToString(row.azHosts) + "_vms",
     row.broadcast + "_br", row.subnetName, row.subscriptionName, row.vnetCidr + "_vnet",
     row.vnetName, row.location, row.nsg, row.dns, row.subscriptionId]
  }

  /** Each value in its field. */
  function Fields(values: seq<string>, widths: seq<nat>): (fields: seq<string>)
    requires |values| == |widths|
    ensures |fields| == |values|
    ensures forall k :: 0 <= k < |values| ==> fields[k] == FormatField(values[k], widths[k])
    decreases |values|
  {
    if |values| == 0 then []
    else [FormatField(values[0], widths[0])] + Fields(values[1..], widths[1..])
  }

  /** `print_csv_row`: the line of a row, its fields joined by commas. */
  function CsvLine(row: Row): string {
    Join(Fields(RowValues(row), WIDTHS), ",")
  }

  /** The line `print_csv_row` prints for a row is its thirteen fields joined by commas:
      the row number, the gap, the subnet block, the used and available host counts as
      `<used>/<hosts>_vms`, the broadcast address with `_br`, the subnet name, the
      subscription name, the vnet block with `_vnet`, the vnet name, the location, the
      security group, the DNS servers and the subscription id, each right-aligned in its
      width. */
  lemma CsvLineFormat(row: Row)
    ensures CsvLine(row) == Join([
      FormatField(NatToString(row.j), 6),
      FormatField(row.gap, 8),
      FormatField(row.subnetCidr, 18),
      FormatField(NatToString(row.ipConfigurationsCount) + "/" + NatToString(row.azHosts) + "_vms", 12),
      FormatField(row.broadcast + "_br", 19),
      FormatField(row.subnetName, 24),
      FormatField(row.subscriptionName, 21),
      FormatField(row.vnetCidr + "_vnet", 24),
      FormatField(row.vnetName, 30),
      FormatField(row.location, 16),
      FormatField(row.nsg, 13),
      FormatField(row.dns, 13),
      FormatField(row.subscriptionId, 39)], ",")
  {
    var values := RowValues(row);
    var fields := Fields(values, WIDTHS);
    ThirteenFields(values, WIDTHS, fields);
  }

  /** Thirteen values in their fields, one by one. */
  lemma ThirteenFields(values: seq<string>, widths: seq<nat>, fields: seq<string>)
    requires |values| == |widths| == 13 && fields == Fields(values, widths)
    ensures fields == [FormatField(values[0], widths[0]), FormatField(values[1], widths[1]),
      FormatField(values[2], widths[2]), FormatField(values[3], widths[3]),
      FormatField(values[4], widths[4]), FormatField(values[5], widths[5]),
      FormatField(values[6], widths[6]), FormatField(values[7], widths[7]),
      FormatField(values[8], widths[8]), FormatField(values[9], widths[9]),
      FormatField(values[10], widths[10]), FormatField(values[11], widths[11]),
      FormatField(values[12], widths[12])]
  {
  }

  /** The strings of a row that reach its line unchanged. */
  function RowTexts(row: Row): seq<string> {
    [row.gap, row.subnetCidr, row.broadcast, row.subnetName, row.subscriptionName,
     row.vnetCidr, row.vnetName, row.location, row.nsg, row.dns, row.subscriptionId]
  }

  /** A line can be read back: when no string of the row holds a comma, splitting the
      line at its commas gives thirteen fields, and each field reads back as its
      value. */
  lemma CsvLineRoundTrip(row: Row)
    requires forall k :: 0 <= k < |RowTexts(row)| ==> ',' !in RowTexts(row)[k]
    ensures var parts := Split(CsvLine(row), ',');
      |parts| == 13
      && forall k :: 0 <= k < 13 ==> ReadField(parts[k]) == Some(RowValues(row)[k])
  {
    var values := RowValues(row);
    var fields := Fields(values, WIDTHS);
    ValuesAvoidComma(row);
    FieldsAvoid(values, WIDTHS, ',');
    SplitJoin(fields, ',');
    forall k | 0 <= k < 13
      ensures ReadField(fields[k]) == Some(values[k])
    {
      FormatFieldRoundTrip(values[k], WIDTHS[k]);
    }
  }

  /** The values of a row hold a comma only when its strings do. */
  lemma ValuesAvoidComma(row: Row)
    requires forall k :: 0 <= k < |RowTexts(row)| ==> ',' !in RowTexts(row)[k]
    ensures forall k :: 0 <= k < |RowValues(row)| ==> ',' !in RowValues(row)[k]
  {
    var t := RowTexts(row);
    assert ',' !in t[0] && ',' !in t[1] && ',' !in t[2] && ',' !in t[3] && ',' !in t[4]
      && ',' !in t[5] && ',' !in t[6] && ',' !in t[7] && ',' !in t[8] && ',' !in t[9]
      && ',' !in t[10];
    assert ',' !in NatToString(row.j) && ',' !in NatToString(row.ipConfigurationsCount)
      && ',' !in NatToString(row.azHosts);
  }

  /** Fields of values without `c` have no `c` either, for `c` neither a space nor a
      double quote. */
  lemma FieldsAvoid(values: seq<string>, widths: seq<nat>, c: char)
    requires |values| == |widths| && c != ' ' && c != '"'
    requires forall k :: 0 <= k < |values| ==> c !in values[k]
    ensures forall k :: 0 <= k < |values| ==> c !in Fields(values, widths)[k]
  {
    forall k | 0 <= k < |values|
      ensures c !in Fields(values, widths)[k]
    {
      FormatFieldAvoids(values[k], widths[k], c);
    }
  }

  // ----- the header -----

  /** The column names of the header line as the source prints them: twelve, with no
      column for the host counts that every row carries in its fourth field. */
  function HeaderNamesAsWritten(): (names: seq<string>)
    ensures |names| == 12
  {
    [" \"cnt\"", "   \"gap\"", "     \"subnet_cidr\"", " \"broadcast\"", "      \"subnet_name\"",
     "     \"subscription_name\"", "           \"vnet_cidr\"", "           \"vnet_name\"",
     "               \"location\"", "    \"nsg\"", "       \"dns\"", "       \"subscription_id\""]
  }

  /** The header with a column named for the host counts, in the place of the rows'
      fourth field. */
  function HeaderNames(): (names: seq<string>)
    ensures |names| == 13
  {
    var w := HeaderNamesAsWritten();
    w[..3] + ["   \"host_cnt\""] + w[3..]
  }

  function Header(): string {
    Join(HeaderNames(), ",")
  }

  /** As written, the header splits into one column fewer than every row, so from the
      fourth column on each name sits over the field of the column before. */
  lemma HeaderAsWrittenMisaligned(row: Row)
    requires forall k :: 0 <= k < |RowTexts(row)| ==> ',' !in RowTexts(row)[k]
    ensures |Split(Join(HeaderNamesAsWritten(), ","), ',')| == 12
    ensures |Split(CsvLine(row), ',')| == 13
  {
    var names := HeaderNamesAsWritten();
    assert forall k :: 0 <= k < |names| ==> ',' !in names[k];
    SplitJoin(names, ',');
    CsvLineRoundTrip(row);
  }

  /** With the host column named, the header has exactly as many columns as every row. */
  lemma HeaderMatchesRows(row: Row)
    requires forall k :: 0 <= k < |RowTexts(row)| ==> ',' !in RowTexts(row)[k]
    ensures |Split(Header(), ',')| == |Split(CsvLine(row), ',')| == 13
  {
    HeaderNamesNoComma();
    SplitJoin(HeaderNames(), ',');
    CsvLineRoundTrip(row);
  }

  /** No column name holds a comma. */
  lemma HeaderNamesNoComma()
    ensures forall k :: 0 <= k < |HeaderNames()| ==> ',' !in HeaderNames()[k]
  {
    var names := HeaderNames();
    var w := HeaderNamesAsWritten();
    assert forall k :: 0 <= k < |w| ==> ',' !in w[k];
    assert forall k :: 0 <= k < |names| ==> names[k] == (if k < 3 then w[k] else if k == 3 then "   \"host_cnt\"" else w[k - 1]);
  }

  // ----- subnet_print -----

  /** The lines of the report: the header, then one line per row. */
  function CsvLines(rows: seq<Row>): (lines: seq<string>)
    ensures |lines| == |rows|
    ensures forall k :: 0 <= k < |rows| ==> lines[k] == CsvLine(rows[k])
  {
    if |rows| == 0 then [] else [CsvLine(rows[0])] + CsvLines(rows[1..])
  }

  /** The line every report prints last, with "NOTE" in plain text rather than red. */
  function EndNote(): string {
    "#NOTE# End main() Skipped subnet smaller than " + AddrToString(SKIP_SUBNET_SMALLER_THAN)
  }

  /** The note names the skip address in dotted form. */
  lemma EndNoteText(a: Addr)
    requires a == SKIP_SUBNET_SMALLER_THAN
    ensures EndNote() == "#NOTE# End main() Skipped subnet smaller than " + "10.17.255.255"
  {
    SkipText(a);
  }

  /** The dotted text of 10.17.255.255. */
  lemma SkipText(a: Addr)
    requires a == SKIP_SUBNET_SMALLER_THAN
    ensures AddrToString(a) == "10.17.255.255"
  {
    SkipOctets(a);
    TwoFiftyFiveText(255);
    SmallText(10, 17);
    SkipJoin(["10", "17", "255", "255"]);
  }

  /** The four octet texts joined by dots. */
  lemma SkipJoin(parts: seq<string>)
    requires parts == ["10", "17", "255", "255"]
    ensures Join(parts, ".") == "10.17.255.255"
  {
    JoinCons(parts[0], parts[1..], ".");
    JoinCons(parts[1], parts[2..], ".");
    JoinCons(parts[2], parts[3..], ".");
  }

  /** The texts of the first two octets. */
  lemma SmallText(a: nat, b: nat)
    requires a == 10 && b == 17
    ensures NatToString(a) == "10" && NatToString(b) == "17"
  {
  }

  /** The octets of 10.17.255.255. */
  lemma SkipOctets(a: Addr)
    requires a == SKIP_SUBNET_SMALLER_THAN
    ensures Octets(a) == [10, 17, 255, 255]
  {
  }

  /** The text of the octet 255. */
  lemma TwoFiftyFiveText(n: nat)
    requires n == 255
    ensures NatToString(n) == "255"
  {
    assert NatToString(n / 10) == "25";
  }

  /** `subnet_print`: prints the header, walks the records in order, then prints a line
      per row and the closing note. A panic in the walk comes after the header. */
  method SubnetPrint(data: seq<Subnet>, gapMask: Byte) returns (printed: seq<string>, r: Result<()>)
    ensures r.Ok? <==> Report(data, gapMask).Ok?
    ensures r.Ok? ==> printed == [Header()] + CsvLines(Report(data, gapMask).value.rows) + [EndNote()]
    ensures r.Err? ==> r.fault == Report(data, gapMask).fault && printed == [Header()]
  {
    printed := [Header()];
    var walked := WalkRecords(data, gapMask);
    if walked.Err? {
      return printed, Err(walked.fault);
    }
    var lines := PrintRows(walked.value.rows);
    printed := printed + lines + [EndNote()];
    r := Ok(());
  }

  /** The second loop of `subnet_print`: `print_csv_row` on each row in turn. */
  method PrintRows(rows: seq<Row>) returns (lines: seq<string>)
    ensures lines == CsvLines(rows)
  {
    lines := [];
    for k := 0 to |rows|
      invariant |lines| == k
      invariant forall j :: 0 <= j < k ==> lines[j] == CsvLine(rows[j])
    {
      lines := lines + [CsvLine(rows[k])];
    }
  }

  /** The first loop of `subnet_print`: `process_subnet_row` on each record in turn,
      threading the next address and the previous vnet block and collecting the rows. */
  method WalkRecords(data: seq<Subnet>, gapMask: Byte) returns (r: Result<Walked>)
    ensures r == Report(data, gapMask)
  {
    var next := REPORT_START;
    var vnetPrevious := START_VNET;
    var outputRows: seq<Row> := [];
    for i := 0 to |data|
      invariant Report(data[..i], gapMask) == Ok(Walked(next, vnetPrevious, outputRows))
    {
      var step := ProcessSubnetRow(data[i], i, next, vnetPrevious, gapMask);
      ReportSnoc(data, i, gapMask);
      if step.Err? {
        ReportAbort(data, i + 1, gapMask);
        return Err(step.fault);
      }
      next := step.value.next;
      vnetPrevious := step.value.vnetPrevious;
      outputRows := outputRows + step.value.rows;
    }
    assert data[..|data|] == data;
    return Ok(Walked(next, vnetPrevious, outputRows));
  }

  /** The walk over one more record. */
  lemma ReportSnoc(data: seq<Subnet>, i: nat, gapMask: Byte)
    requires i < |data| && Report(data[..i], gapMask).Ok?
    ensures var w := Report(data[..i], gapMask).value;
      var step := ProcessSubnetRowSpec(data[i], i, w.next, w.vnetPrevious, gapMask);
      Report(data[..i + 1], gapMask) ==
        if step.Err? then Err(step.fault)
        else Ok(Walked(step.value.next, step.value.vnetPrevious, w.rows + step.value.rows))
  {
    assert data[..i + 1][..i] == data[..i];
  }

  /** Once the walk aborts, the records after do not matter. */
  lemma {:induction false} ReportAbort(data: seq<Subnet>, k: nat, gapMask: Byte)
    requires k <= |data| && Report(data[..k], gapMask).Err?
    ensures Report(data, gapMask) == Report(data[..k], gapMask)
    decreases |data| - k
  {
    if k < |data| {
      assert data[..k + 1][..k] == data[..k];
      ReportAbort(data, k + 1, gapMask);
    } else {
      assert data[..k] == data;
    }
  }
}
