/** The command line's keyword tables: the main commands in enumeration
    order, and for each inventory domain the field keywords it accepts
    after `get`. Entry 0 of every table is the "invalid command" sentinel. */
module Catalog {
  import opened Text

  const Invalid: nat := 0
  const Disk: nat := 1
  const Smbios: nat := 2
  const Gpu: nat := 3
  const Cpu: nat := 4
  const Network: nat := 5
  const System: nat := 6
  const PhysicalMemory: nat := 7
  const Registry: nat := 8
  const All: nat := 9
  const RealTime: nat := 10
  const MusicOn: nat := 11
  const MusicOff: nat := 12
  const Save: nat := 13
  const Help: nat := 14
  const Exit: nat := 15

  const Sentinel: string := "invalid command"

  const ValidCommands: seq<string> := [
    Sentinel, "disk", "smbios", "gpu", "cpu", "network", "system",
    "physicalmemory", "registry", "all", "realtime", "musicon", "musicoff",
    "save", "help", "exit"
  ]

  const DiskSubCommands: seq<string> := [
    Sentinel, "serialnumber", "model", "interface", "driveletter", "size",
    "freespace", "mediatype", "isbootdrive"
  ]

  const SmbiosSubCommands: seq<string> := [
    Sentinel, "serialnumber", "manufacturer", "product", "version"
  ]

  const GpuSubCommands: seq<string> := [
    Sentinel, "name", "driverversion", "resolution", "refreshrate"
  ]

  const CpuSubCommands: seq<string> := [
    Sentinel, "processorid", "manufacturer", "name", "cores", "threads"
  ]

  const NetworkSubCommands: seq<string> := [
    Sentinel, "name", "mac"
  ]

  const SystemSubCommands: seq<string> := [
    Sentinel, "name", "ishypervisorpresent", "osversion", "ostitle",
    "osarchitecture", "osserialnumber"
  ]

  const PhysicalMemorySubCommands: seq<string> := [
    Sentinel, "partnumber", "totalsize", "availablesize", "totalvirtualsize",
    "availablevirtualsize", "totalpagefilesize", "availablepagefilesize"
  ]

  const RegistrySubCommands: seq<string> := [
    Sentinel, "computerhardwareid", "computermanufacturer", "computerproductname"
  ]

  /** The domains that carry data fields. */
  predicate IsDataDomain(domain: nat)
  {
    Disk <= domain <= Registry
  }

  /** The field catalog of a domain; every other command has none. */
  function ValidSubCommands(domain: nat): (cat: seq<string>)
    ensures IsDataDomain(domain) <==> cat != []
    ensures cat != [] ==> cat[0] == Sentinel && |cat| >= 3
  {
    match domain
    case 1 => DiskSubCommands
    case 2 => SmbiosSubCommands
    case 3 => GpuSubCommands
    case 4 => CpuSubCommands
    case 5 => NetworkSubCommands
    case 6 => SystemSubCommands
    case 7 => PhysicalMemorySubCommands
    case 8 => RegistrySubCommands
    case _ => []
  }

  /** No keyword of a table is a prefix of another keyword of the same table. */
  predicate PrefixFree(cat: seq<string>)
  {
    forall i, j :: 0 <= i < |cat| && 0 <= j < |cat| && i != j ==> !IsPrefix(cat[i], cat[j])
  }

  /** Characters that keep `a` from being a prefix of `b`: `a` is longer,
      or `a` differs from `b` at its first, last or next-to-last position. */
  predicate Distinguishable(a: string, b: string)
  {
    |a| > |b| || (|a| >= 2 && (a[0] != b[0] || a[|a| - 1] != b[|a| - 1] || a[|a| - 2] != b[|a| - 2]))
  }

  lemma DistinguishableNotPrefix(a: string, b: string)
    requires Distinguishable(a, b)
    ensures !IsPrefix(a, b)
  {
  }

  /** Entries `lo` .. `hi`-1 of `cat` are distinguishable from every other
      entry. */
  predicate RowsDistinguishable(cat: seq<string>, lo: nat, hi: nat)
  {
    forall i, j :: lo <= i < hi && i < |cat| && 0 <= j < |cat| && i != j ==> Distinguishable(cat[i], cat[j])
  }

  lemma {:induction false} PrefixFreeByRows(cat: seq<string>, mid: nat)
    requires RowsDistinguishable(cat, 0, mid) && RowsDistinguishable(cat, mid, |cat|)
    ensures PrefixFree(cat)
  {
    forall i, j | 0 <= i < |cat| && 0 <= j < |cat| && i != j
      ensures !IsPrefix(cat[i], cat[j])
    {
      DistinguishableNotPrefix(cat[i], cat[j]);
    }
  }

  lemma CommandsLow()
    ensures RowsDistinguishable(ValidCommands, 0, 4)
  {
  }

  lemma CommandsMiddle()
    ensures RowsDistinguishable(ValidCommands, 4, 8)
  {
  }

  lemma CommandsHigh()
    ensures RowsDistinguishable(ValidCommands, 8, 12)
  {
  }

  lemma CommandsTop()
    ensures RowsDistinguishable(ValidCommands, 12, 16)
  {
  }

  /** No main command is a prefix of another, so at most one of them can
      start a line. */
  lemma {:induction false} CommandsPrefixFree()
    ensures PrefixFree(ValidCommands)
  {
    CommandsLow();
    CommandsMiddle();
    CommandsHigh();
    CommandsTop();
    assert RowsDistinguishable(ValidCommands, 0, 8);
    assert RowsDistinguishable(ValidCommands, 8, 16);
    PrefixFreeByRows(ValidCommands, 8);
  }

  lemma DiskLow()
    ensures RowsDistinguishable(DiskSubCommands, 0, 5)
  {
  }

  lemma DiskHigh()
    ensures RowsDistinguishable(DiskSubCommands, 5, 9)
  {
  }

  lemma MemoryLow()
    ensures RowsDistinguishable(PhysicalMemorySubCommands, 0, 2)
    ensures RowsDistinguishable(PhysicalMemorySubCommands, 2, 4)
  {
  }

  lemma MemoryHigh()
    ensures RowsDistinguishable(PhysicalMemorySubCommands, 4, 8)
  {
  }

  lemma SmbiosRows()
    ensures RowsDistinguishable(SmbiosSubCommands, 0, 5)
  {
  }

  lemma GpuRows()
    ensures RowsDistinguishable(GpuSubCommands, 0, 5)
  {
  }

  lemma CpuRows()
    ensures RowsDistinguishable(CpuSubCommands, 0, 6)
  {
  }

  lemma NetworkRows()
    ensures RowsDistinguishable(NetworkSubCommands, 0, 3)
  {
  }

  lemma SystemLow()
    ensures RowsDistinguishable(SystemSubCommands, 0, 4)
  {
  }

  lemma SystemHigh()
    ensures RowsDistinguishable(SystemSubCommands, 4, 7)
  {
  }

  lemma RegistryRows()
    ensures RowsDistinguishable(RegistrySubCommands, 0, 4)
  {
  }

  /** No field keyword is a prefix of another in the same catalog, so two
      different fields never share their first offset in a line. */
  lemma {:induction false} SubCommandsPrefixFree(domain: nat)
    ensures PrefixFree(ValidSubCommands(domain))
  {
    var cat := ValidSubCommands(domain);
    var mid := |cat|;
    if domain == Disk {
      DiskLow();
      DiskHigh();
      mid := 5;
    } else if domain == Smbios {
      SmbiosRows();
    } else if domain == Gpu {
      GpuRows();
    } else if domain == Cpu {
      CpuRows();
    } else if domain == Network {
      NetworkRows();
    } else if domain == System {
      SystemLow();
      SystemHigh();
      mid := 4;
    } else if domain == PhysicalMemory {
      MemoryLow();
      MemoryHigh();
      mid := 4;
    } else if domain == Registry {
      RegistryRows();
    }
    PrefixFreeByRows(cat, mid);
  }

  /** The sentinel keyword holds a space, so it never occurs in a line from
      which the spaces were removed. */
  lemma SentinelNeverOccurs(line: string, p: nat)
    requires ' ' !in line
    ensures !OccursAt(line, Sentinel, p)
  {
    assert Sentinel[7] == ' ';
    if OccursAt(line, Sentinel, p) {
      OccursCarriesCharacters(line, Sentinel, p, ' ');
    }
  }
}
