/** The interactive shell's parsed state and its two steps: `ParseCommand`,
    which turns the current line into a command index and a list of field
    indices, and `RespondCommand`, which acts on them and then clears the
    state. Console output is a sequence of events; the inventory values
    themselves are abstract. */
module CommandLine {
  import opened Text
  import opened Catalog
  import opened Ordering
  import opened Parser

  /** One piece of console output. */
  datatype Event =
    | LineBreak                                                    // an empty `std::endl` line
    | Value(domain: nat, field: nat, record: nat, terminator: string) // one field of one record
    | DomainReport(domain: nat)                                    // the fixed-label report of a domain
    | FullReport                                                   // the eight reports of `all`
    | MusicStarted
    | MusicMissing
    | MusicStopped
    | MusicStopFailed
    | MonitorRun                                                   // the CPU/memory load loop of `realtime`
    | StatisticsSaved
    | HelpOpened
    | InvalidCommand

  /** How many records each multi-instance domain holds. */
  datatype Inventory = Inventory(disks: nat, gpus: nat, adapters: nat)

  /** Disks, GPUs and network adapters come as lists of records. */
  predicate MultiInstance(domain: nat)
  {
    domain == Disk || domain == Gpu || domain == Network
  }

  /** The number of records of a multi-instance domain. */
  function RecordCount(domain: nat, inv: Inventory): (n: nat)
  {
    if domain == Disk then inv.disks
    else if domain == Gpu then inv.gpus
    else if domain == Network then inv.adapters
    else 0
  }

  /** What `FmtPrint` writes after the value of record `j`: a blank line
      after the last record of a list of two or more, else a line end;
      nothing for the single-instance domains. */
  function FmtSeparator(domain: nat, j: nat, inv: Inventory): (r: string)
    ensures MultiInstance(domain) ==> (r == "\n\n" <==> j != 0 && j + 1 == RecordCount(domain, inv))
    ensures MultiInstance(domain) && r != "\n\n" ==> r == "\n"
    ensures !MultiInstance(domain) ==> r == ""
  {
    if domain == Disk || domain == Gpu || domain == Network then
      if j != 0 && j + 1 == RecordCount(domain, inv) then "\n\n" else "\n"
    else ""
  }

  /** The output for one requested field: one value per record, or a single
      value followed by a line end; an index outside the catalog prints
      nothing. */
  function FieldBlock(domain: nat, field: nat, inv: Inventory): (r: seq<Event>)
  {
    if field == 0 || field >= |ValidSubCommands(domain)| then []
    else if MultiInstance(domain) then
      seq(RecordCount(domain, inv), j requires 0 <= j => Value(domain, field, j, FmtSeparator(domain, j, inv)))
    else [Value(domain, field, 0, "\n")]
  }

  /** The output for a field list: the blocks of the fields, in order. */
  function FieldReport(domain: nat, fields: seq<nat>, inv: Inventory): (r: seq<Event>)
  {
    if fields == [] then []
    else FieldReport(domain, fields[..|fields| - 1], inv) + FieldBlock(domain, fields[|fields| - 1], inv)
  }

  /** A field's block is one value per record of a multi-instance domain,
      a single value otherwise, and nothing for the sentinel or an index
      outside the catalog; entry `j` is the value of that field for
      record `j`. */
  lemma FieldBlockValues(domain: nat, field: nat, inv: Inventory)
    ensures var block := FieldBlock(domain, field, inv);
      && (field == 0 || field >= |ValidSubCommands(domain)| ==> block == [])
      && (1 <= field < |ValidSubCommands(domain)| && MultiInstance(domain) ==> |block| == RecordCount(domain, inv))
      && (1 <= field < |ValidSubCommands(domain)| && !MultiInstance(domain) ==> |block| == 1)
      && forall j :: 0 <= j < |block| ==>
        block[j].Value? && block[j].domain == domain && block[j].field == field && block[j].record == j
  {
  }

  /** Every entry of `s` is a value of `domain`, of one of `fields`. */
  predicate ValuesOf(domain: nat, fields: seq<nat>, s: seq<Event>)
  {
    forall k :: 0 <= k < |s| ==> s[k].Value? && s[k].domain == domain && s[k].field in fields
  }

  /** A field listing holds only values of the domain, each of a field
      that was asked for. */
  lemma {:induction false} FieldReportValues(domain: nat, fields: seq<nat>, inv: Inventory)
    ensures ValuesOf(domain, fields, FieldReport(domain, fields, inv))
  {
    if fields != [] {
      var init := fields[..|fields| - 1];
      var last := fields[|fields| - 1];
      var prefix := FieldReport(domain, init, inv);
      var block := FieldBlock(domain, last, inv);
      FieldReportValues(domain, init, inv);
      FieldBlockValues(domain, last, inv);
      var report := FieldReport(domain, fields, inv);
      assert report == prefix + block;
      forall k | 0 <= k < |report|
        ensures report[k].Value? && report[k].domain == domain && report[k].field in fields
      {
        if k < |prefix| {
          assert report[k] == prefix[k];
          var m :| 0 <= m < |init| && init[m] == prefix[k].field;
          assert fields[m] == init[m];
        } else {
          assert report[k] == block[k - |prefix|];
        }
      }
    }
  }

  /** What one dispatch writes, given the parsed command index and field
      list; `playOk` and `stopOk` stand for the outcome of starting and
      stopping the music. */
  function Response(index: nat, fields: seq<nat>, inv: Inventory, playOk: bool, stopOk: bool): (r: seq<Event>)
    ensures r == [] <==> fields == [] && index == Exit
    ensures fields != [] ==> r[0] == LineBreak
  {
    if fields != [] then [LineBreak] + FieldReport(index, fields, inv)
    else if index == MusicOn then [if playOk then MusicStarted else MusicMissing]
    else if index == MusicOff then [if stopOk then MusicStopped else MusicStopFailed]
    else if IsDataDomain(index) then [LineBreak, DomainReport(index)]
    else if index == All then [FullReport]
    else if index == RealTime then [MonitorRun]
    else if index == Save then [StatisticsSaved]
    else if index == Help then [HelpOpened]
    else if index == Exit then []
    else [InvalidCommand]
  }

  /** The command index a verdict leaves behind. */
  function ParsedIndex(v: Verdict): (index: nat)
  {
    match v
    case Rejected => Invalid
    case AllFields(d) => d
    case Fields(d, _) => d
  }

  /** The field list a verdict leaves behind: parsing assigns it only when
      it accepts fields, and otherwise leaves the previous list in place. */
  function ParsedFields(v: Verdict, previous: seq<nat>): (fields: seq<nat>)
  {
    match v
    case Fields(_, f) => f
    case _ => previous
  }

  lemma {:induction false} MulMonotone(a: nat, b: nat, n: nat)
    requires a <= b
    ensures a * n <= b * n
  {
    assert b * n == a * n + (b - a) * n;
  }

  /** The report of a multi-instance domain holds one value per record
      per field. */
  lemma {:induction false} FieldReportLength(d: nat, f: seq<nat>, inv: Inventory)
    requires MultiInstance(d)
    requires forall m :: 0 <= m < |f| ==> 1 <= f[m] < |ValidSubCommands(d)|
    ensures |FieldReport(d, f, inv)| == |f| * RecordCount(d, inv)
  {
    if f != [] {
      var n := RecordCount(d, inv);
      FieldReportLength(d, f[..|f| - 1], inv);
      assert (|f| - 1) * n + n == |f| * n;
    }
  }

  /** The report of a non-empty field list is the report of all but the
      last field followed by the block of the last one. */
  lemma {:induction false} FieldReportSplit(d: nat, f: seq<nat>, inv: Inventory)
    requires MultiInstance(d) && f != []
    requires forall m :: 0 <= m < |f| ==> 1 <= f[m] < |ValidSubCommands(d)|
    ensures var n := RecordCount(d, inv);
      && FieldReport(d, f, inv) == FieldReport(d, f[..|f| - 1], inv) + FieldBlock(d, f[|f| - 1], inv)
      && |FieldReport(d, f[..|f| - 1], inv)| == (|f| - 1) * n
      && |FieldBlock(d, f[|f| - 1], inv)| == n
  {
    FieldReportLength(d, f[..|f| - 1], inv);
  }

  /** Record `j` of field `f[i]` sits at position `i * n + j` of the
      report, where `n` is the number of records. */
  lemma {:induction false} FieldReportAt(d: nat, f: seq<nat>, inv: Inventory, i: nat, j: nat)
    requires MultiInstance(d)
    requires forall m :: 0 <= m < |f| ==> 1 <= f[m] < |ValidSubCommands(d)|
    requires i < |f| && j < RecordCount(d, inv)
    ensures var n := RecordCount(d, inv);
      i * n + j < |FieldReport(d, f, inv)| && FieldReport(d, f, inv)[i * n + j] == Value(d, f[i], j, FmtSeparator(d, j, inv))
  {
    var n := RecordCount(d, inv);
    var g := f[..|f| - 1];
    FieldReportSplit(d, f, inv);
    if i < |g| {
      FieldReportAt(d, g, inv, i, j);
      assert g[i] == f[i];
      InFirstBlocks(i, j, |g|, n);
    } else {
      LastBlockAt(d, f, inv, j);
    }
  }

  lemma {:induction false} InFirstBlocks(i: nat, j: nat, m: nat, n: nat)
    requires i < m && j < n
    ensures i * n + j < m * n
  {
    MulMonotone(i + 1, m, n);
    assert (i + 1) * n == i * n + n;
  }

  lemma {:induction false} LastBlockAt(d: nat, f: seq<nat>, inv: Inventory, j: nat)
    requires MultiInstance(d) && f != []
    requires forall m :: 0 <= m < |f| ==> 1 <= f[m] < |ValidSubCommands(d)|
    requires j < RecordCount(d, inv)
    ensures var base := |FieldReport(d, f[..|f| - 1], inv)|;
      base + j < |FieldReport(d, f, inv)|
      && FieldReport(d, f, inv)[base + j] == Value(d, f[|f| - 1], j, FmtSeparator(d, j, inv))
  {
    FieldReportSplit(d, f, inv);
    var block := FieldBlock(d, f[|f| - 1], inv);
    assert block[j] == Value(d, f[|f| - 1], j, FmtSeparator(d, j, inv));
  }

  /** Within each field's block of `n` values the blank line comes after
      the last record, and only when there are two records or more. */
  lemma {:induction false} BlankLineClosesEachField(d: nat, f: seq<nat>, inv: Inventory, i: nat, j: nat)
    requires MultiInstance(d)
    requires forall m :: 0 <= m < |f| ==> 1 <= f[m] < |ValidSubCommands(d)|
    requires i < |f| && j < RecordCount(d, inv)
    ensures var n := RecordCount(d, inv);
      var report := FieldReport(d, f, inv);
      && i * n + j < |report|
      && report[i * n + j].Value?
      && (report[i * n + j].terminator == "\n\n" <==> n >= 2 && j == n - 1)
  {
    FieldReportAt(d, f, inv, i, j);
  }

  /** With a single record no value is followed by a blank line. */
  lemma {:induction false} SingleRecordNoBlankLine(d: nat, f: seq<nat>, inv: Inventory)
    requires MultiInstance(d) && RecordCount(d, inv) == 1
    requires forall m :: 0 <= m < |f| ==> 1 <= f[m] < |ValidSubCommands(d)|
    ensures |FieldReport(d, f, inv)| == |f|
    ensures forall t :: 0 <= t < |f| ==> FieldReport(d, f, inv)[t] == Value(d, f[t], 0, "\n")
  {
    FieldReportLength(d, f, inv);
    forall t | 0 <= t < |f|
      ensures FieldReport(d, f, inv)[t] == Value(d, f[t], 0, "\n")
    {
      FieldReportAt(d, f, inv, t, 0);
    }
  }

  /** Domains with a single record print one value per field, each with
      its own line end. */
  lemma {:induction false} SingleInstanceReport(d: nat, f: seq<nat>, inv: Inventory)
    requires !MultiInstance(d)
    requires forall m :: 0 <= m < |f| ==> 1 <= f[m] < |ValidSubCommands(d)|
    ensures FieldReport(d, f, inv) == seq(|f|, m requires 0 <= m < |f| => Value(d, f[m], 0, "\n"))
  {
    if f != [] {
      SingleInstanceReport(d, f[..|f| - 1], inv);
    }
  }

  /** Starting from the idle state, a parsed field list is non-empty only
      for a data domain, and a rejected line carries no fields. */
  lemma {:induction false} ParsedStateConsistent(line: string)
    ensures var v := Classify(line, Invalid);
      && (ParsedFields(v, []) != [] ==> IsDataDomain(ParsedIndex(v)))
      && (ParsedIndex(v) == Invalid ==> ParsedFields(v, []) == [])
  {
    if Classify(line, Invalid).Fields? {
      FieldsShape(line, Invalid);
    }
  }

  /** A field request on a space-free line prints a line break and then
      the field report, every field being one the dispatcher has a value
      for, so the layout lemmas apply. */
  lemma {:induction false} FieldRequestResponse(line: string, inv: Inventory, playOk: bool, stopOk: bool)
    requires ' ' !in line && Classify(line, Invalid).Fields?
    ensures var v := Classify(line, Invalid);
      && Response(ParsedIndex(v), ParsedFields(v, []), inv, playOk, stopOk) == [LineBreak] + FieldReport(v.domain, v.fields, inv)
      && forall m :: 0 <= m < |v.fields| ==> 1 <= v.fields[m] < |ValidSubCommands(v.domain)|
  {
    FieldsShape(line, Invalid);
  }

  /** A listing of one more field is the shorter listing followed by the
      block of that field. */
  lemma {:induction false} FieldReportSnoc(d: nat, fields: seq<nat>, inv: Inventory, i: nat)
    requires i < |fields|
    ensures FieldReport(d, fields[..i + 1], inv) == FieldReport(d, fields[..i], inv) + FieldBlock(d, fields[i], inv)
  {
    assert fields[..i + 1][..i] == fields[..i];
  }

  /** With a field list the response is a line break and the listing. */
  lemma FieldsResponse(index: nat, fields: seq<nat>, inv: Inventory, playOk: bool, stopOk: bool)
    requires fields != []
    ensures Response(index, fields, inv, playOk, stopOk) == [LineBreak] + FieldReport(index, fields, inv)
  {
  }

  /** The catalog entries that occur in `line`, in catalog order, with the
      offsets of their first occurrences. */
  method CollectFields(line: string, cat: seq<string>) returns (unordered: seq<nat>, offsets: seq<int>)
    ensures unordered == MatchedBelow(line, cat, |cat|)
    ensures |offsets| == |unordered|
    ensures forall m :: 0 <= m < |unordered| ==> offsets[m] == Pos(line, cat, unordered[m])
  {
    unordered := [];
    offsets := [];
    var i := 0;
    while i < |cat|
      invariant 0 <= i <= |cat|
      invariant unordered == MatchedBelow(line, cat, i)
      invariant |offsets| == |unordered|
      invariant forall m :: 0 <= m < |unordered| ==> offsets[m] == Pos(line, cat, unordered[m])
    {
      var offset := Find(line, cat[i]);
      if offset.Some? {
        unordered := unordered + [i];
        offsets := offsets + [offset.value];
      }
      i := i + 1;
    }
  }

  /** Collects the field keywords of domain `d` that occur in `line`,
      argsorts their offsets, and checks that the earliest starts right
      after `get`; the accepted fields are `unordered` read through
      `ordered`. */
  method ArgsortFields(line: string, d: nat) returns (accepted: bool, unordered: seq<nat>, ordered: seq<nat>)
    requires d < |ValidCommands|
    ensures |ordered| == |unordered| && InRange(ordered, |unordered|)
    ensures !accepted <==> SelectFields(line, d) == Rejected
    ensures accepted ==> SelectFields(line, d) == Fields(d, seq(|ordered|, t requires 0 <= t < |ordered| => unordered[ordered[t]]))
  {
    var k := |ValidCommands[d]|;
    var offsets;
    unordered, offsets := CollectFields(line, ValidSubCommands(d));
    if |unordered| == 0 || |offsets| == 0 {
      NoFieldsRejected(line, d);
      return false, [], [];
    }
    ordered := OrderVector(offsets);
    SelectFieldsByArgsort(line, d, unordered, offsets, ordered);
    accepted := offsets[ordered[0]] == k + 3;
  }

  /** The new length and retained entries of `std::vector::resize`. */
  function Resize(s: seq<nat>, n: nat): (r: seq<nat>)
    ensures |r| == n
  {
    if n <= |s| then s[..n] else s + seq(n - |s|, _ => 0)
  }

  class Shell {
    /** The line being handled. */
    var curCmd: string
    /** `ParsedCommand.CommandIndex`: also the start of the keyword scan. */
    var commandIndex: nat
    /** `ParsedCommand.SubCommandIndex`. */
    var subCommandIndex: seq<nat>
    /** Everything written to the console so far. */
    var output: seq<Event>
    /** Set by `exit`: the process ends. */
    var exited: bool

    /** The state between two lines. */
    predicate Idle()
      reads this
    {
      commandIndex == Invalid && subCommandIndex == []
    }

    constructor ()
      ensures curCmd == "" && Idle() && output == [] && !exited
    {
      curCmd := "";
      commandIndex := Invalid;
      subCommandIndex := [];
      output := [];
      exited := false;
    }

    /** Folds the line to lower case, one character at a time. */
    method LowercaseLine()
      modifies this`curCmd
      ensures curCmd == Lowercase(old(curCmd))
    {
      var i := 0;
      while i < |curCmd|
        invariant 0 <= i <= |curCmd| == |old(curCmd)|
        invariant forall j :: 0 <= j < i ==> curCmd[j] == ToLower(old(curCmd)[j])
        invariant forall j :: i <= j < |curCmd| ==> curCmd[j] == old(curCmd)[j]
      {
        curCmd := curCmd[i := ToLower(curCmd[i])];
        i := i + 1;
      }
    }

    /** Advances `commandIndex` to the first command keyword, at or after
        its current value, that starts the line. */
    method ScanCommand() returns (found: bool)
      modifies this`commandIndex
      ensures found ==> FindDomain(curCmd, old(commandIndex)) == Some(commandIndex)
      ensures !found ==> FindDomain(curCmd, old(commandIndex)) == None
    {
      found := false;
      while commandIndex < |ValidCommands|
        invariant FindDomain(curCmd, old(commandIndex)) == FindDomain(curCmd, commandIndex)
        decreases |ValidCommands| - commandIndex
      {
        if Find(curCmd, ValidCommands[commandIndex]) == Some(0) {
          found := true;
          break;
        }
        commandIndex := commandIndex + 1;
      }
    }

    /** Resizes the field list and fills it with the collected indices in
        argsort order. */
    method StoreFields(unordered: seq<nat>, ordered: seq<nat>)
      requires |ordered| == |unordered| && InRange(ordered, |unordered|)
      modifies this`subCommandIndex
      ensures subCommandIndex == seq(|ordered|, t requires 0 <= t < |ordered| => unordered[ordered[t]])
    {
      subCommandIndex := Resize(subCommandIndex, |unordered|);
      var i := 0;
      while i < |unordered|
        invariant 0 <= i <= |unordered| == |subCommandIndex|
        invariant forall t :: 0 <= t < i ==> subCommandIndex[t] == unordered[ordered[t]]
      {
        subCommandIndex := subCommandIndex[i := unordered[ordered[i]]];
        i := i + 1;
      }
    }

    /** The field branch of the parser: collects the field keywords of
        domain `d` that occur in the line, orders them by offset, and
        accepts them when the earliest starts right after `get`. */
    method ParseFields(d: nat)
      requires d < |ValidCommands| && commandIndex == d
      modifies this`commandIndex, this`subCommandIndex
      ensures commandIndex == ParsedIndex(SelectFields(curCmd, d))
      ensures subCommandIndex == ParsedFields(SelectFields(curCmd, d), old(subCommandIndex))
    {
      var accepted, unordered, ordered := ArgsortFields(curCmd, d);
      if !accepted {
        commandIndex := Invalid;
        return;
      }
      StoreFields(unordered, ordered);
    }

    /** Lowercases the line in place, scans for the command keyword from
        the current index on, and on a `get` request selects the fields. */
    method ParseCommand()
      modifies this`curCmd, this`commandIndex, this`subCommandIndex
      ensures curCmd == Lowercase(old(curCmd))
      ensures commandIndex == ParsedIndex(Classify(curCmd, old(commandIndex)))
      ensures subCommandIndex == ParsedFields(Classify(curCmd, old(commandIndex)), old(subCommandIndex))
    {
      LowercaseLine();
      var found := ScanCommand();
      if !found {
        commandIndex := Invalid;
        return;
      }
      var k := |ValidCommands[commandIndex]|;
      var getAt := Find(curCmd, "get");
      if getAt.Some? && |curCmd| != k + 3 {
        if getAt != Some(k) {
          commandIndex := Invalid;
          return;
        }
        ParseFields(commandIndex);
      } else if |curCmd| > k {
        commandIndex := Invalid;
      }
    }

    /** Writes the values of one requested field: for a multi-instance
        domain one value per record through `FmtPrint`, otherwise the single
        value and a line end. */
    method WriteFieldBlock(field: nat, inv: Inventory)
      modifies this`output
      ensures output == old(output) + FieldBlock(commandIndex, field, inv)
    {
      var d := commandIndex;
      if 1 <= field < |ValidSubCommands(d)| {
        if MultiInstance(d) {
          var j := 0;
          while j < RecordCount(d, inv)
            invariant 0 <= j <= RecordCount(d, inv)
            invariant output == old(output) + seq(j, r requires 0 <= r => Value(d, field, r, FmtSeparator(d, r, inv)))
          {
            output := output + [Value(d, field, j, FmtSeparator(d, j, inv))];
            assert seq(j + 1, r requires 0 <= r => Value(d, field, r, FmtSeparator(d, r, inv)))
              == seq(j, r requires 0 <= r => Value(d, field, r, FmtSeparator(d, r, inv))) + [Value(d, field, j, FmtSeparator(d, j, inv))];
            j := j + 1;
          }
        } else {
          output := output + [Value(d, field, 0, "\n")];
        }
      }
    }

    /** Writes the values of every requested field, fields in the outer
        loop and records in the inner one. */
    method WriteFieldReport(inv: Inventory)
      modifies this`output
      ensures output == old(output) + FieldReport(commandIndex, subCommandIndex, inv)
    {
      var d, fields := commandIndex, subCommandIndex;
      var i := 0;
      while i < |fields|
        invariant 0 <= i <= |fields|
        invariant output == old(output) + FieldReport(d, fields[..i], inv)
      {
        WriteFieldBlock(fields[i], inv);
        FieldReportSnoc(d, fields, inv, i);
        i := i + 1;
      }
      assert fields[..|fields|] == fields;
    }

    /** The branch taken when a field list was parsed: a line break, then
        the listing of the requested fields. */
    method WriteFieldListing(inv: Inventory, playOk: bool, stopOk: bool)
      requires subCommandIndex != []
      modifies this`output
      ensures output == old(output) + Response(commandIndex, subCommandIndex, inv, playOk, stopOk)
    {
      FieldsResponse(commandIndex, subCommandIndex, inv, playOk, stopOk);
      output := output + [LineBreak];
      WriteFieldReport(inv);
    }

    /** The switch on the command index when no field list was parsed:
        the control actions, the whole-domain reports, `exit`, and the
        error message for anything else. */
    method Dispatch(inv: Inventory, playOk: bool, stopOk: bool)
      requires !exited
      modifies this`output, this`exited
      ensures output == old(output) + Response(commandIndex, [], inv, playOk, stopOk)
      ensures exited <==> commandIndex == Exit
    {
      var d := commandIndex;
      if d == MusicOn {
        output := output + [if playOk then MusicStarted else MusicMissing];
      } else if d == MusicOff {
        output := output + [if stopOk then MusicStopped else MusicStopFailed];
      } else if Disk <= d <= Registry {
        output := output + [LineBreak, DomainReport(d)];
      } else if d == All {
        output := output + [FullReport];
      } else if d == RealTime {
        output := output + [MonitorRun];
      } else if d == Save {
        output := output + [StatisticsSaved];
      } else if d == Help {
        output := output + [HelpOpened];
      } else if d == Exit {
        exited := true;
      } else {
        output := output + [InvalidCommand];
      }
    }

    /** Acts on the parsed state: the field listing when there is a field
        list, else the switch on the command index; then, unless the
        command was `exit`, the state goes back to idle. */
    method Respond(inv: Inventory, playOk: bool, stopOk: bool)
      requires !exited
      modifies this`output, this`exited, this`commandIndex, this`subCommandIndex
      ensures output == old(output) + Response(old(commandIndex), old(subCommandIndex), inv, playOk, stopOk)
      ensures exited <==> old(subCommandIndex) == [] && old(commandIndex) == Exit
      ensures exited ==> commandIndex == old(commandIndex) && subCommandIndex == old(subCommandIndex)
      ensures !exited ==> Idle()
    {
      if |subCommandIndex| > 0 {
        WriteFieldListing(inv, playOk, stopOk);
      } else {
        Dispatch(inv, playOk, stopOk);
        if exited {
          return;
        }
      }
      commandIndex := Invalid;
      subCommandIndex := [];
    }

    /** Parses the line, writes the response and, unless the command was
        `exit`, returns to the idle state. */
    method RespondCommand(inv: Inventory, playOk: bool, stopOk: bool)
      requires !exited
      modifies this
      ensures curCmd == Lowercase(old(curCmd))
      ensures var v := Classify(curCmd, old(commandIndex));
        var index := ParsedIndex(v);
        var fields := ParsedFields(v, old(subCommandIndex));
        && output == old(output) + Response(index, fields, inv, playOk, stopOk)
        && (exited <==> fields == [] && index == Exit)
        && (exited ==> commandIndex == index && subCommandIndex == fields)
        && (!exited ==> Idle())
    {
      ParseCommand();
      Respond(inv, playOk, stopOk);
    }
  }
}
