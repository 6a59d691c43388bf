/** What `ParseCommand` decides about one lowercased, space-stripped line,
    stated as functions: the domain whose keyword starts the line, whether
    `get` follows it, and which field keywords occur, in the order of their
    first occurrence. The imperative parser in module CommandLine is proved
    to reach exactly this verdict. */
module Parser {
  import opened Text
  import opened Catalog
  import opened Ordering

  /** The offset of the first occurrence of catalog entry `i` in `line`, or
      -1 when it does not occur (the offsets vector holds ints). */
  function Pos(line: string, cat: seq<string>, i: nat): (r: int)
    ensures r >= -1
    ensures r >= 0 ==> i < |cat| && OccursAt(line, cat[i], r as nat)
    ensures r >= 0 ==> forall q :: 0 <= q < r ==> !OccursAt(line, cat[i], q)
    ensures i < |cat| ==> (r == -1 <==> forall q :: !OccursAt(line, cat[i], q))
  {
    if i < |cat| then
      match Find(line, cat[i])
      case Some(p) => p
      case None => -1
    else -1
  }

  /** The first-occurrence offsets of the whole catalog, indexed by entry. */
  function Positions(line: string, cat: seq<string>): (r: seq<int>)
    ensures |r| == |cat|
  {
    seq(|cat|, i requires 0 <= i < |cat| => Pos(line, cat, i))
  }

  /** The catalog entries below `n` that occur in `line`, in catalog order:
      the indices the collection loop pushes. */
  function MatchedBelow(line: string, cat: seq<string>, n: nat): (r: seq<nat>)
    requires n <= |cat|
    ensures InRange(r, n)
    ensures forall v: nat :: v in r <==> v < n && Pos(line, cat, v) >= 0
    ensures forall k, l :: 0 <= k < l < |r| ==> r[k] < r[l]
  {
    if n == 0 then []
    else if Pos(line, cat, n - 1) >= 0 then MatchedBelow(line, cat, n - 1) + [n - 1]
    else MatchedBelow(line, cat, n - 1)
  }

  /** The matched entries in ascending offset order, by the reference sort. */
  function FieldOrder(line: string, cat: seq<string>): (r: seq<nat>)
  {
    SortBy(MatchedBelow(line, cat, |cat|), Positions(line, cat))
  }

  /** `fields` lists every catalog entry that occurs in `line`, and nothing
      else, with strictly increasing first-occurrence offsets. */
  predicate InInputOrder(line: string, cat: seq<string>, fields: seq<nat>)
  {
    && InRange(fields, |cat|)
    && (forall k :: 0 <= k < |fields| ==> Pos(line, cat, fields[k]) >= 0)
    && (forall i :: 0 <= i < |cat| && Pos(line, cat, i) >= 0 ==> i in fields)
    && (forall k, l :: 0 <= k < l < |fields| ==> Pos(line, cat, fields[k]) < Pos(line, cat, fields[l]))
  }

  /** Two different entries of a prefix-free catalog never share a first
      offset, which is why the unstable sort is still deterministic. */
  lemma {:induction false} DistinctFieldsDistinctOffsets(line: string, cat: seq<string>, i: nat, j: nat)
    requires PrefixFree(cat)
    requires i < |cat| && j < |cat| && i != j
    requires Pos(line, cat, i) >= 0
    ensures Pos(line, cat, i) != Pos(line, cat, j)
  {
    if Pos(line, cat, i) == Pos(line, cat, j) {
      var p := Pos(line, cat, i) as nat;
      SameOffsetMeansPrefix(line, cat[i], cat[j], p);
    }
  }

  /** Key order plus distinct keys is strict key order. */
  lemma {:induction false} SortedDistinctIsStrict(line: string, cat: seq<string>, s: seq<nat>)
    requires PrefixFree(cat)
    requires InRange(s, |cat|) && Distinct(s)
    requires forall k :: 0 <= k < |s| ==> Pos(line, cat, s[k]) >= 0
    requires SortedBy(s, Positions(line, cat))
    ensures forall k, l :: 0 <= k < l < |s| ==> Pos(line, cat, s[k]) < Pos(line, cat, s[l])
  {
    var keys := Positions(line, cat);
    forall k, l | 0 <= k < l < |s|
      ensures Pos(line, cat, s[k]) < Pos(line, cat, s[l])
    {
      assert keys[s[k]] <= keys[s[l]];
      DistinctFieldsDistinctOffsets(line, cat, s[k], s[l]);
    }
  }

  /** The reference order lists the matched entries in input order. */
  lemma {:induction false} FieldOrderInInputOrder(line: string, cat: seq<string>)
    requires PrefixFree(cat)
    ensures InInputOrder(line, cat, FieldOrder(line, cat))
  {
    var m := MatchedBelow(line, cat, |cat|);
    var r := FieldOrder(line, cat);
    assert Distinct(m);
    SortByDistinct(m, Positions(line, cat));
    forall v
      ensures v in r <==> v in m
    {
      assert v in r <==> v in multiset(r);
      assert v in m <==> v in multiset(m);
    }
    SortedDistinctIsStrict(line, cat, r);
  }

  /** There is only one list in input order: the field list is determined
      by the line. */
  lemma {:induction false} InputOrderUnique(line: string, cat: seq<string>, f: seq<nat>, g: seq<nat>)
    requires InInputOrder(line, cat, f) && InInputOrder(line, cat, g)
    ensures f == g
  {
    var keys := Positions(line, cat);
    forall v
      ensures v in f <==> v in g
    {
      if v in f {
        var k :| 0 <= k < |f| && f[k] == v;
        assert Pos(line, cat, f[k]) >= 0;
      }
      if v in g {
        var k :| 0 <= k < |g| && g[k] == v;
        assert Pos(line, cat, g[k]) >= 0;
      }
    }
    assert StrictlySortedBy(f, keys) by {
      forall k, l | 0 <= k < l < |f|
        ensures keys[f[k]] < keys[f[l]]
      {
        assert Pos(line, cat, f[k]) < Pos(line, cat, f[l]);
      }
    }
    assert StrictlySortedBy(g, keys) by {
      forall k, l | 0 <= k < l < |g|
        ensures keys[g[k]] < keys[g[l]]
      {
        assert Pos(line, cat, g[k]) < Pos(line, cat, g[l]);
      }
    }
    StrictlySortedUnique(f, g, keys);
  }

  /** The indices and offsets the collection loop gathers, and a sorting
      permutation of the offsets. */
  predicate Argsorted(line: string, cat: seq<string>, unordered: seq<nat>, offsets: seq<int>, ordered: seq<nat>)
  {
    && unordered == MatchedBelow(line, cat, |cat|)
    && |offsets| == |unordered|
    && (forall m :: 0 <= m < |unordered| ==> offsets[m] == Pos(line, cat, unordered[m]))
    && IsPermutation(ordered, |offsets|) && SortedBy(ordered, offsets)
  }

  /** Every matched entry appears in the argsort reading. */
  lemma {:induction false} ArgsortCoversMatches(line: string, cat: seq<string>, unordered: seq<nat>, offsets: seq<int>, ordered: seq<nat>)
    requires Argsorted(line, cat, unordered, offsets, ordered)
    ensures var r := seq(|ordered|, t requires 0 <= t < |ordered| => unordered[ordered[t]]);
      forall i :: 0 <= i < |cat| && Pos(line, cat, i) >= 0 ==> i in r
  {
    var r := seq(|ordered|, t requires 0 <= t < |ordered| => unordered[ordered[t]]);
    forall i | 0 <= i < |cat| && Pos(line, cat, i) >= 0
      ensures i in r
    {
      var m :| 0 <= m < |unordered| && unordered[m] == i;
      assert m in ordered;
      var t :| 0 <= t < |ordered| && ordered[t] == m;
      assert r[t] == i;
    }
  }

  /** In a prefix-free catalog the argsort reading has strictly increasing
      offsets. */
  lemma {:induction false} ArgsortStrict(line: string, cat: seq<string>, unordered: seq<nat>, offsets: seq<int>, ordered: seq<nat>)
    requires PrefixFree(cat)
    requires Argsorted(line, cat, unordered, offsets, ordered)
    ensures var r := seq(|ordered|, t requires 0 <= t < |ordered| => unordered[ordered[t]]);
      forall t, u :: 0 <= t < u < |r| ==> Pos(line, cat, r[t]) < Pos(line, cat, r[u])
  {
    var r := seq(|ordered|, t requires 0 <= t < |ordered| => unordered[ordered[t]]);
    forall t, u | 0 <= t < u < |r|
      ensures Pos(line, cat, r[t]) < Pos(line, cat, r[u])
    {
      assert offsets[ordered[t]] <= offsets[ordered[u]];
      assert ordered[t] != ordered[u];
      assert unordered[ordered[t]] != unordered[ordered[u]] by {
        if ordered[t] < ordered[u] {
          assert unordered[ordered[t]] < unordered[ordered[u]];
        } else {
          assert unordered[ordered[u]] < unordered[ordered[t]];
        }
      }
      DistinctFieldsDistinctOffsets(line, cat, r[t], r[u]);
    }
  }

  /** Reading the collected indices through the argsort of their offsets
      gives the reference order: this is how `ParseCommand` builds the
      field list. */
  lemma {:induction false} ArgsortGivesFieldOrder(line: string, cat: seq<string>, unordered: seq<nat>, offsets: seq<int>, ordered: seq<nat>)
    requires PrefixFree(cat)
    requires Argsorted(line, cat, unordered, offsets, ordered)
    ensures seq(|ordered|, t requires 0 <= t < |ordered| => unordered[ordered[t]]) == FieldOrder(line, cat)
  {
    var r := seq(|ordered|, t requires 0 <= t < |ordered| => unordered[ordered[t]]);
    ArgsortCoversMatches(line, cat, unordered, offsets, ordered);
    ArgsortStrict(line, cat, unordered, offsets, ordered);
    assert InInputOrder(line, cat, r);
    FieldOrderInInputOrder(line, cat);
    InputOrderUnique(line, cat, r, FieldOrder(line, cat));
  }

  /** The least index at or after `from` whose main-command keyword starts
      the line, or None: the scan that also serves as `CommandIndex`. */
  function FindDomain(line: string, from: nat): (r: Option<nat>)
    ensures r.Some? ==> from <= r.value < |ValidCommands| && IsPrefix(ValidCommands[r.value], line)
    ensures r.Some? ==> forall i :: from <= i < r.value ==> !IsPrefix(ValidCommands[i], line)
    ensures r.None? ==> forall i :: from <= i < |ValidCommands| ==> !IsPrefix(ValidCommands[i], line)
    decreases |ValidCommands| - from
  {
    if from >= |ValidCommands| then None
    else
      FindZeroIffPrefix(line, ValidCommands[from]);
      if Find(line, ValidCommands[from]) == Some(0) then Some(from)
      else FindDomain(line, from + 1)
  }

  /** The outcome of parsing one line. */
  datatype Verdict =
    | Rejected                                 // `CommandIndex` becomes eInvalid
    | AllFields(domain: nat)                   // a bare command: the whole domain or a control action
    | Fields(domain: nat, fields: seq<nat>)    // `<domain>get<field>...`: these catalog entries, in input order

  /** The decision `ParseCommand` takes, step for step. */
  function Classify(line: string, from: nat): (v: Verdict)
    ensures FindDomain(line, from).None? ==> v == Rejected
    ensures v.AllFields? ==> FindDomain(line, from) == Some(v.domain) && line == ValidCommands[v.domain]
    ensures v.Fields? ==>
      && FindDomain(line, from) == Some(v.domain)
      && Find(line, "get") == Some(|ValidCommands[v.domain]|)
      && v.fields != []
      && InInputOrder(line, ValidSubCommands(v.domain), v.fields)
      && Pos(line, ValidSubCommands(v.domain), v.fields[0]) == |ValidCommands[v.domain]| + 3
  {
    match FindDomain(line, from)
    case None => Rejected
    case Some(d) =>
      var k := |ValidCommands[d]|;
      if Find(line, "get").Some? && |line| != k + 3 then
        if Find(line, "get") != Some(k) then Rejected
        else SelectFields(line, d)
      else if |line| > k then Rejected
      else AllFields(d)
  }

  /** The field branch, once `get` is known to follow keyword `d`: some
      field must occur and the earliest one must start right after `get`. */
  function SelectFields(line: string, d: nat): (v: Verdict)
    requires d < |ValidCommands|
    ensures !v.AllFields?
    ensures v.Fields? ==>
      && v.domain == d
      && v.fields != []
      && InInputOrder(line, ValidSubCommands(d), v.fields)
      && Pos(line, ValidSubCommands(d), v.fields[0]) == |ValidCommands[d]| + 3
  {
    var cat := ValidSubCommands(d);
    SubCommandsPrefixFree(d);
    FieldOrderInInputOrder(line, cat);
    var order := FieldOrder(line, cat);
    if order == [] then Rejected
    else if Pos(line, cat, order[0]) != |ValidCommands[d]| + 3 then Rejected
    else Fields(d, order)
  }

  /** With no field keyword in the line the field branch rejects it. */
  lemma {:induction false} NoFieldsRejected(line: string, d: nat)
    requires d < |ValidCommands|
    requires MatchedBelow(line, ValidSubCommands(d), |ValidSubCommands(d)|) == []
    ensures SelectFields(line, d) == Rejected
  {
    assert multiset(FieldOrder(line, ValidSubCommands(d))) == multiset{};
  }

  /** The field branch as the parser computes it: the collected indices
      read through a sorting permutation of their offsets, accepted when
      the earliest offset is right after `get`. */
  lemma {:induction false} SelectFieldsByArgsort(line: string, d: nat, unordered: seq<nat>, offsets: seq<int>, ordered: seq<nat>)
    requires d < |ValidCommands|
    requires Argsorted(line, ValidSubCommands(d), unordered, offsets, ordered) && unordered != []
    ensures SelectFields(line, d) ==
      if offsets[ordered[0]] != |ValidCommands[d]| + 3 then Rejected
      else Fields(d, seq(|ordered|, t requires 0 <= t < |ordered| => unordered[ordered[t]]))
  {
    var cat := ValidSubCommands(d);
    SubCommandsPrefixFree(d);
    ArgsortGivesFieldOrder(line, cat, unordered, offsets, ordered);
    var order := FieldOrder(line, cat);
    assert |order| == |unordered| by {
      assert |multiset(order)| == |multiset(unordered)|;
    }
    assert order[0] == unordered[ordered[0]];
  }

  /** Some field keyword occurs at `p` and none occurs earlier. */
  predicate FirstFieldAt(line: string, cat: seq<string>, p: nat)
  {
    && (exists i :: 0 <= i < |cat| && Pos(line, cat, i) == p)
    && (forall i :: 0 <= i < |cat| && Pos(line, cat, i) >= 0 ==> p <= Pos(line, cat, i))
  }

  /** Domain resolution: a verdict other than rejection names the least
      command at or after `from` whose keyword starts the line, and a line
      that no keyword starts is rejected. */
  lemma ResolvedDomainIsFirstPrefix(line: string, from: nat)
    ensures Classify(line, from).AllFields? || Classify(line, from).Fields? ==>
      var d := Classify(line, from).domain;
      && from <= d < |ValidCommands|
      && IsPrefix(ValidCommands[d], line)
      && forall i :: from <= i < d ==> !IsPrefix(ValidCommands[i], line)
    ensures (forall i :: from <= i < |ValidCommands| ==> !IsPrefix(ValidCommands[i], line)) ==>
      Classify(line, from) == Rejected
  {
  }

  /** Two keywords that both start a line are prefixes one of the other. */
  lemma {:induction false} TwoPrefixes(s: string, a: string, b: string)
    requires IsPrefix(a, s) && IsPrefix(b, s)
    ensures IsPrefix(a, b) || IsPrefix(b, a)
  {
    assert s[0..|a|] == s[..|a|];
    assert s[0..|b|] == s[..|b|];
    SameOffsetMeansPrefix(s, a, b, 0);
  }

  /** Since no main keyword is a prefix of another, the keyword that starts
      the line is the one the scan from 0 finds. */
  lemma {:induction false} PrefixDeterminesDomain(line: string, d: nat)
    requires d < |ValidCommands| && IsPrefix(ValidCommands[d], line)
    ensures FindDomain(line, 0) == Some(d)
  {
    CommandsPrefixFree();
    var r := FindDomain(line, 0);
    assert r.Some?;
    if r.value != d {
      TwoPrefixes(line, ValidCommands[r.value], ValidCommands[d]);
    }
  }

  /** The sentinel entry 0 is never resolved from a space-free line. */
  lemma {:induction false} SentinelNeverResolved(line: string, from: nat)
    requires ' ' !in line
    ensures Classify(line, from) != AllFields(Invalid)
    ensures !(Classify(line, from).Fields? && Classify(line, from).domain == Invalid)
  {
    if FindDomain(line, from) == Some(Invalid) {
      assert line[0..|Sentinel|] == line[..|Sentinel|];
      SentinelNeverOccurs(line, 0);
    }
  }

  /** No main keyword contains `get`. */
  lemma {:induction false} NoGetInCommands(d: nat, p: nat)
    requires d < |ValidCommands|
    ensures !OccursAt(ValidCommands[d], "get", p)
  {
    var w := ValidCommands[d];
    if d == Gpu || d == Registry {
      // the one 'g' of "gpu" and of "registry" is not followed by 'e'
      if p == (if d == Gpu then 0 else 2) {
        Mismatch(w, "get", p, 1);
      } else {
        Mismatch(w, "get", p, 0);
      }
    } else {
      assert 'g' !in w;
      AbsentCharacter(w, "get", 'g');
    }
  }

  /** A line that is exactly a keyword selects that command with no field
      list, and that is the only way to obtain a bare command from the
      scan at 0. */
  lemma {:induction false} BareCommandIffKeyword(line: string, d: nat)
    ensures Classify(line, 0) == AllFields(d) <==> d < |ValidCommands| && line == ValidCommands[d]
  {
    if d < |ValidCommands| && line == ValidCommands[d] {
      assert line[..|line|] == line;
      PrefixDeterminesDomain(line, d);
      forall p
        ensures !OccursAt(line, "get", p)
      {
        NoGetInCommands(d, p);
      }
    }
    if Classify(line, 0) == AllFields(d) {
      assert line[..|ValidCommands[d]|] == ValidCommands[d];
    }
  }

  /** `<keyword>get` with nothing after it is rejected: its length is the
      keyword's plus three, so it skips the field branch and is too long. */
  lemma {:induction false} KeywordGetRejected(d: nat)
    requires d < |ValidCommands|
    ensures Classify(ValidCommands[d] + "get", 0) == Rejected
  {
    var line := ValidCommands[d] + "get";
    assert line[..|ValidCommands[d]|] == ValidCommands[d];
    PrefixDeterminesDomain(line, d);
  }

  /** A line with `get` whose first `get` does not follow the keyword
      directly is rejected, unless its length is the keyword's plus three
      (then it is rejected as too long, or is a bare command). */
  lemma MisplacedGetRejected(line: string, from: nat, d: nat, p: nat)
    requires FindDomain(line, from) == Some(d)
    requires Find(line, "get") == Some(p) && p != |ValidCommands[d]|
    requires |line| != |ValidCommands[d]| + 3
    ensures Classify(line, from) == Rejected
  {
  }

  /** For a list in input order, the earliest field keyword starts at `p`
      exactly when the list is non-empty and its head starts at `p`. */
  lemma {:induction false} FirstFieldIsHead(line: string, cat: seq<string>, order: seq<nat>, p: nat)
    requires InInputOrder(line, cat, order)
    ensures FirstFieldAt(line, cat, p) <==> order != [] && Pos(line, cat, order[0]) == p
  {
    if FirstFieldAt(line, cat, p) {
      var i :| 0 <= i < |cat| && Pos(line, cat, i) == p;
      assert i in order;
      var l :| 0 <= l < |order| && order[l] == i;
      assert Pos(line, cat, order[0]) >= 0;
    }
    if order != [] && Pos(line, cat, order[0]) == p {
      forall i | 0 <= i < |cat| && Pos(line, cat, i) >= 0
        ensures p <= Pos(line, cat, i)
      {
        assert i in order;
        var l :| 0 <= l < |order| && order[l] == i;
        if l > 0 {
          assert Pos(line, cat, order[0]) < Pos(line, cat, order[l]);
        }
      }
    }
  }

  /** A `get` form on a command without a field catalog (all, realtime,
      musicon, musicoff, save, help, exit, and the sentinel) is rejected. */
  lemma GetOnNonDataDomainRejected(line: string, from: nat, d: nat)
    requires FindDomain(line, from) == Some(d) && !IsDataDomain(d)
    requires Find(line, "get").Some? && |line| != |ValidCommands[d]| + 3
    ensures Classify(line, from) == Rejected
  {
  }

  /** Field selection, both directions: the line is accepted with field
      list `f` exactly when the first `get` follows the keyword, the line
      is not just `<keyword>get`, the earliest field keyword starts right
      after `get`, and `f` lists the occurring fields in input order. */
  lemma {:induction false} FieldsIff(line: string, from: nat, d: nat, f: seq<nat>)
    requires FindDomain(line, from) == Some(d)
    ensures Classify(line, from) == Fields(d, f) <==>
      var k := |ValidCommands[d]|;
      && Find(line, "get") == Some(k)
      && |line| != k + 3
      && FirstFieldAt(line, ValidSubCommands(d), k + 3)
      && InInputOrder(line, ValidSubCommands(d), f)
  {
    var k := |ValidCommands[d]|;
    var cat := ValidSubCommands(d);
    SubCommandsPrefixFree(d);
    FieldOrderInInputOrder(line, cat);
    var order := FieldOrder(line, cat);
    FirstFieldIsHead(line, cat, order, k + 3);
    if InInputOrder(line, cat, f) {
      InputOrderUnique(line, cat, f, order);
    }
  }

  /** What an accepted field request looks like: a data domain, the first
      `get` right after its keyword, at least one field, each catalog
      entry at most once, in input order, the first one starting right
      after `get`; on a space-free line entry 0 (the sentinel) never
      appears. */
  lemma {:induction false} FieldsShape(line: string, from: nat)
    requires Classify(line, from).Fields?
    ensures var v := Classify(line, from);
      var k := |ValidCommands[v.domain]|;
      var cat := ValidSubCommands(v.domain);
      && IsDataDomain(v.domain)
      && Find(line, "get") == Some(k)
      && v.fields != []
      && InInputOrder(line, cat, v.fields)
      && Pos(line, cat, v.fields[0]) == k + 3
      && (' ' !in line ==> forall m :: 0 <= m < |v.fields| ==> v.fields[m] >= 1)
  {
    var v := Classify(line, from);
    var d := v.domain;
    var cat := ValidSubCommands(d);
    SubCommandsPrefixFree(d);
    FieldOrderInInputOrder(line, cat);
    var f := v.fields;
    if ' ' !in line {
      forall m | 0 <= m < |f|
        ensures f[m] >= 1
      {
        if f[m] == 0 {
          SentinelNeverOccurs(line, Pos(line, cat, 0) as nat);
        }
      }
    }
  }
}
