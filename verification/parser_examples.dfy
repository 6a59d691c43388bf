/** Two worked lines: `diskgetmodelserialnumber` selects the model and then
    the serial number, in the order typed, and `diskgetmodelxyz` selects the
    model alone, because nothing after the first field is checked. */
module ParserExamples {
  import opened Text
  import opened Catalog
  import opened Ordering
  import opened Parser

  /** Resolving the disk domain and its `get` in a line that starts with
      `diskget`. */
  lemma {:induction false} DiskGetPrefix(line: string)
    requires |line| >= 7 && line[..7] == "diskget"
    ensures FindDomain(line, 0) == Some(Disk)
    ensures Find(line, "get") == Some(4)
  {
    assert line[..4] == "disk";
    PrefixDeterminesDomain(line, Disk);
    assert line[4..7] == "get";
    forall q | 0 <= q < 4
      ensures !OccursAt(line, "get", q)
    {
      Mismatch(line, "get", q, 0);
    }
    FindIsLeastOccurrence(line, "get", 4);
  }

  /** The first occurrence fixes the offset `Pos` reports. */
  lemma {:induction false} FirstOccurrence(line: string, cat: seq<string>, i: nat, p: nat)
    requires i < |cat| && OccursAt(line, cat[i], p)
    requires forall q :: 0 <= q < p ==> !OccursAt(line, cat[i], q)
    ensures Pos(line, cat, i) == p
  {
    FindIsLeastOccurrence(line, cat[i], p);
  }

  lemma {:induction false} SerialNumberAt12(line: string)
    requires line == "diskgetmodelserialnumber"
    ensures Pos(line, DiskSubCommands, 1) == 12
  {
    var w := "serialnumber";
    assert DiskSubCommands[1] == w;
    assert line[12..24] == w;
    forall q | 0 <= q < 12
      ensures !OccursAt(line, w, q)
    {
      if line[q] != 's' {
        Mismatch(line, w, q, 0);
      } else {
        Mismatch(line, w, q, 1);
      }
    }
    FirstOccurrence(line, DiskSubCommands, 1, 12);
  }

  lemma {:induction false} ModelAt7(line: string)
    requires line == "diskgetmodelserialnumber" || line == "diskgetmodelxyz"
    ensures Pos(line, DiskSubCommands, 2) == 7
  {
    var w := "model";
    assert DiskSubCommands[2] == w;
    assert line[7..12] == w;
    assert forall q :: 0 <= q < 7 ==> line[q] == "diskget"[q];
    forall q | 0 <= q < 7
      ensures !OccursAt(line, w, q)
    {
      Mismatch(line, w, q, 0);
    }
    FirstOccurrence(line, DiskSubCommands, 2, 7);
  }

  /** A catalog entry holding a character the line lacks is not found. */
  lemma {:induction false} NotFound(line: string, cat: seq<string>, i: nat, c: char)
    requires i < |cat| && c in cat[i] && c !in line
    ensures Pos(line, cat, i) == -1
  {
    AbsentCharacter(line, cat[i], c);
  }

  lemma {:induction false} ModelSerialNumberOthersAbsent(line: string, i: nat)
    requires line == "diskgetmodelserialnumber"
    requires i < |DiskSubCommands| && i != 1 && i != 2
    ensures Pos(line, DiskSubCommands, i) == -1
  {
    if i <= 4 {
      SerialNumberLineLacksLow(line, i);
    } else {
      SerialNumberLineLacksHigh(line, i);
    }
  }

  lemma {:induction false} SerialNumberLineLacksLow(line: string, i: nat)
    requires line == "diskgetmodelserialnumber"
    requires i == 0 || i == 3 || i == 4
    ensures Pos(line, DiskSubCommands, i) == -1
  {
    var cat := DiskSubCommands;
    if i == 0 {
      NotFound(line, cat, 0, ' ');
    } else if i == 3 {
      NotFound(line, cat, 3, 'f');
    } else {
      NotFound(line, cat, 4, 'v');
    }
  }

  lemma {:induction false} SerialNumberLineLacksHigh(line: string, i: nat)
    requires line == "diskgetmodelserialnumber"
    requires 5 <= i < |DiskSubCommands|
    ensures Pos(line, DiskSubCommands, i) == -1
  {
    var cat := DiskSubCommands;
    if i == 5 {
      NotFound(line, cat, 5, 'z');
    } else if i == 6 {
      NotFound(line, cat, 6, 'f');
    } else if i == 7 {
      NotFound(line, cat, 7, 'y');
    } else {
      NotFound(line, cat, 8, 'v');
    }
  }

  lemma {:induction false} ModelSerialNumberFields(line: string)
    requires line == "diskgetmodelserialnumber"
    ensures InInputOrder(line, DiskSubCommands, [2, 1])
    ensures FirstFieldAt(line, DiskSubCommands, 7)
  {
    var cat := DiskSubCommands;
    SerialNumberAt12(line);
    ModelAt7(line);
    forall i | 0 <= i < |cat| && Pos(line, cat, i) >= 0
      ensures i in [2, 1]
    {
      if i != 1 && i != 2 {
        ModelSerialNumberOthersAbsent(line, i);
      }
    }
    assert Pos(line, cat, 2) == 7;
  }

  /** `diskgetmodelserialnumber` selects disk fields 2 (model) and 1
      (serial number), in that order. */
  lemma {:induction false} ModelThenSerialNumber()
    ensures Classify("diskgetmodelserialnumber", 0) == Fields(Disk, [2, 1])
  {
    var line := "diskgetmodelserialnumber";
    DiskGetPrefix(line);
    ModelSerialNumberFields(line);
    assert ValidSubCommands(Disk) == DiskSubCommands;
    assert |ValidCommands[Disk]| == 4;
    FieldsIff(line, 0, Disk, [2, 1]);
  }

  lemma {:induction false} ModelXyzOthersAbsent(line: string, i: nat)
    requires line == "diskgetmodelxyz"
    requires i < |DiskSubCommands| && i != 2
    ensures Pos(line, DiskSubCommands, i) == -1
  {
    var cat := DiskSubCommands;
    if i == 5 {
      assert cat[5] == "size";
      forall q: nat
        ensures !OccursAt(line, cat[5], q)
      {
        if q >= |line| || line[q] != 's' {
          Mismatch(line, cat[5], q, 0);
        } else {
          Mismatch(line, cat[5], q, 1);
        }
      }
    } else if i <= 4 {
      XyzLineLacksLow(line, i);
    } else {
      XyzLineLacksHigh(line, i);
    }
  }

  lemma {:induction false} XyzLineLacksLow(line: string, i: nat)
    requires line == "diskgetmodelxyz"
    requires i == 0 || i == 1 || i == 3 || i == 4
    ensures Pos(line, DiskSubCommands, i) == -1
  {
    var cat := DiskSubCommands;
    if i == 0 {
      NotFound(line, cat, 0, ' ');
    } else if i == 1 {
      NotFound(line, cat, 1, 'r');
    } else if i == 3 {
      NotFound(line, cat, 3, 'f');
    } else {
      NotFound(line, cat, 4, 'v');
    }
  }

  lemma {:induction false} XyzLineLacksHigh(line: string, i: nat)
    requires line == "diskgetmodelxyz"
    requires 6 <= i < |DiskSubCommands|
    ensures Pos(line, DiskSubCommands, i) == -1
  {
    var cat := DiskSubCommands;
    if i == 6 {
      NotFound(line, cat, 6, 'f');
    } else if i == 7 {
      NotFound(line, cat, 7, 'p');
    } else {
      NotFound(line, cat, 8, 'b');
    }
  }

  lemma {:induction false} ModelXyzFields(line: string)
    requires line == "diskgetmodelxyz"
    ensures InInputOrder(line, DiskSubCommands, [2])
    ensures FirstFieldAt(line, DiskSubCommands, 7)
  {
    var cat := DiskSubCommands;
    ModelAt7(line);
    forall i | 0 <= i < |cat| && Pos(line, cat, i) >= 0
      ensures i in [2]
    {
      if i != 2 {
        ModelXyzOthersAbsent(line, i);
      }
    }
    assert Pos(line, cat, 2) == 7;
  }

  /** `diskgetmodelxyz` selects the model alone: the trailing `xyz` is not
      checked. */
  lemma {:induction false} TrailingTextIgnored()
    ensures Classify("diskgetmodelxyz", 0) == Fields(Disk, [2])
  {
    var line := "diskgetmodelxyz";
    DiskGetPrefix(line);
    ModelXyzFields(line);
    assert ValidSubCommands(Disk) == DiskSubCommands;
    assert |ValidCommands[Disk]| == 4;
    FieldsIff(line, 0, Disk, [2]);
  }
}
