/** The small helpers of the statistics collector that the shell relies
    on: whitespace removal on the input line, the null-safe string copy,
    the FILETIME word composition, the padding of an empty WMI result and
    the cut of the OS name at its first '|'. */
module Statistics {
  import opened Text

  /** `s` with every ' ' dropped and the other characters in order. */
  function WithoutSpaces(s: string): (r: string)
    ensures |r| <= |s|
    ensures ' ' !in r
  {
    if s == [] then []
    else WithoutSpaces(s[..|s| - 1]) + (if s[|s| - 1] == ' ' then [] else [s[|s| - 1]])
  }

  /** Removal distributes over concatenation, so it keeps the order of
      what it keeps. */
  lemma {:induction false} WithoutSpacesAppend(a: string, b: string)
    ensures WithoutSpaces(a + b) == WithoutSpaces(a) + WithoutSpaces(b)
    decreases |b|
  {
    if b != [] {
      var b' := b[..|b| - 1];
      assert (a + b)[..|a + b| - 1] == a + b';
      WithoutSpacesAppend(a, b');
    } else {
      assert a + b == a;
    }
  }

  /** Every ' ' goes and every other character, tabs included, stays as
      often as it occurred. */
  lemma {:induction false} WithoutSpacesMultiset(s: string)
    ensures multiset(WithoutSpaces(s)) == multiset(s)[' ' := 0]
  {
    if s != [] {
      var t := s[..|s| - 1];
      WithoutSpacesMultiset(t);
      assert s == t + [s[|s| - 1]];
      assert multiset(s) == multiset(t) + multiset{s[|s| - 1]};
    }
  }

  /** No space is left, and the length drops by the number of spaces. */
  lemma WithoutSpacesCounts(s: string)
    ensures ' ' !in WithoutSpaces(s)
    ensures forall c :: c != ' ' ==> multiset(WithoutSpaces(s))[c] == multiset(s)[c]
    ensures |WithoutSpaces(s)| == |s| - multiset(s)[' ']
  {
    WithoutSpacesMultiset(s);
    var m := multiset(s);
    assert m == m[' ' := 0] + multiset{}[' ' := m[' ']];
    assert |m| == |m[' ' := 0]| + m[' '];
  }

  /** Removing the spaces twice is removing them once. */
  lemma {:induction false} WithoutSpacesIdempotent(s: string)
    ensures WithoutSpaces(WithoutSpaces(s)) == WithoutSpaces(s)
  {
    WithoutSpacesCounts(s);
    NoSpacesUnchanged(WithoutSpaces(s));
  }

  /** A string without spaces is left as it is. */
  lemma {:induction false} NoSpacesUnchanged(s: string)
    requires ' ' !in s
    ensures WithoutSpaces(s) == s
  {
    if s != [] {
      var t := s[..|s| - 1];
      assert ' ' !in t by {
        forall k | 0 <= k < |t|
          ensures t[k] != ' '
        {
          assert t[k] == s[k];
        }
      }
      NoSpacesUnchanged(t);
      assert s == t + [s[|s| - 1]];
    }
  }

  /** `std::remove` of ' ' over the buffer: the kept characters are moved
      to the front, in order, and the new end is returned; what lies past
      it is not specified. */
  method RemoveSpaces(a: array<char>) returns (newEnd: nat)
    modifies a
    ensures newEnd <= a.Length
    ensures a[..newEnd] == WithoutSpaces(old(a[..]))
  {
    ghost var original := a[..];
    var w := 0;
    var r := 0;
    while r < a.Length
      invariant w <= r <= a.Length
      invariant a[..w] == WithoutSpaces(original[..r])
      invariant forall k :: r <= k < a.Length ==> a[k] == original[k]
    {
      ghost var kept := a[..w];
      assert original[..r + 1][..r] == original[..r];
      var c := a[r];
      if c != ' ' {
        a[w] := c;
        assert a[..w + 1] == kept + [c];
        w := w + 1;
      }
      r := r + 1;
    }
    assert original[..a.Length] == original;
    newEnd := w;
  }

  /** `RemoveWhitespaces`: erase-remove of ' ' on the wide string. */
  method RemoveWhitespaces(s: string) returns (r: string)
    ensures r == WithoutSpaces(s)
    ensures ' ' !in r
  {
    var a := new char[|s|](i requires 0 <= i < |s| => s[i]);
    assert a[..] == s;
    var newEnd := RemoveSpaces(a);
    r := a[..newEnd];
    WithoutSpacesCounts(s);
  }

  /** `SafeString`: a null pointer reads as "(null)"; any other string is
      copied. A pointer is modelled as an optional string of the
      characters before its terminator. */
  function SafeString(p: Option<string>): (r: string)
    ensures p.None? ==> r == "(null)"
    ensures p.Some? ==> r == p.value
  {
    match p
    case None => "(null)"
    case Some(s) => s
  }

  /** A disk's serial number as the statistics keep it: the queried value
      made safe, then stripped of its spaces (the firmware pads it). */
  method DiskSerialNumber(serial: Option<string>) returns (r: string)
    ensures ' ' !in r
    ensures serial.None? ==> r == "(null)"
    ensures serial.Some? ==> r == WithoutSpaces(serial.value)
  {
    r := SafeString(serial);
    if serial.None? {
      NoSpacesUnchanged(r);
    }
    r := RemoveWhitespaces(r);
  }

  /** `FileTimeToInt64`: the high word shifted into the upper half, or'ed
      with the low word. The composition loses nothing: the upper half is
      the high word, the lower half the low word, and the value is
      high * 2^32 + low, below 2^64. */
  function FileTimeToInt64(high: bv32, low: bv32): (r: bv64)
    ensures r >> 32 == high as bv64
    ensures r & 0xFFFF_FFFF == low as bv64
    ensures r as int == high as int * 0x1_0000_0000 + low as int
    ensures r as int < 0x1_0000_0000_0000_0000
  {
    ComposedWords(high, low);
    ((high as bv64) << 32) | (low as bv64)
  }

  /** The bit-level facts behind `FileTimeToInt64`'s contract. */
  lemma ComposedWords(high: bv32, low: bv32)
    ensures var r := ((high as bv64) << 32) | (low as bv64);
      && r >> 32 == high as bv64
      && r & 0xFFFF_FFFF == low as bv64
      && r as int == high as int * 0x1_0000_0000 + low as int
      && r as int < 0x1_0000_0000_0000_0000
  {
  }

  /** In integer terms: dividing by 2^32 recovers the high word and the
      remainder is the low word. */
  lemma {:induction false} FileTimeQuotient(high: bv32, low: bv32)
    ensures FileTimeToInt64(high, low) as int / 0x1_0000_0000 == high as int
    ensures FileTimeToInt64(high, low) as int % 0x1_0000_0000 == low as int
  {
    SplitAt32(FileTimeToInt64(high, low) as int, high as int, low as int);
  }

  /** A value written as h * 2^32 + l with l below 2^32 has quotient h and
      remainder l. */
  lemma SplitAt32(x: int, h: int, l: int)
    requires x == h * 0x1_0000_0000 + l && 0 <= l < 0x1_0000_0000
    ensures x / 0x1_0000_0000 == h && x % 0x1_0000_0000 == l
  {
  }

  /** `QueryWMI`'s result vector once the enumeration has run: an empty
      result becomes one value-initialised element, so index 0 exists. */
  function PadQueryResult<T>(values: seq<T>, default: T): (r: seq<T>)
    ensures |r| >= 1
    ensures values != [] ==> r == values
    ensures values == [] ==> r == [default]
  {
    if |values| == 0 then [default] else values
  }

  /** The OS name of `QuerySystem`: the first queried name, made safe,
      cut at its first '|' (the name carries the system paths after it). */
  method SystemOSName(osNames: seq<Option<string>>) returns (name: string)
    ensures var source := SafeString(PadQueryResult(osNames, None)[0]);
      && IsPrefix(name, source)
      && '|' !in name
      && ('|' in source ==> |name| < |source| && source[|name|] == '|')
      && ('|' !in source ==> name == source)
    ensures osNames == [] ==> name == "(null)"
  {
    var padded := PadQueryResult(osNames, None);
    name := SafeString(padded[0]);
    ghost var source := name;
    var bar := Find(name, "|");
    if bar.Some? {
      name := name[..bar.value];
      BarFree(source, bar.value);
    } else {
      NoBar(source);
    }
  }

  /** The text before the first '|' holds no '|'. */
  lemma {:induction false} BarFree(s: string, p: nat)
    requires Find(s, "|") == Some(p)
    ensures p < |s| && s[p] == '|' && '|' !in s[..p]
  {
    FindIsLeastOccurrence(s, "|", p);
    assert s[p..p + 1][0] == s[p];
    forall k | 0 <= k < p
      ensures s[k] != '|'
    {
      assert !OccursAt(s, "|", k);
      assert s[k..k + 1] == [s[k]];
    }
  }

  /** When `find` reports no '|', there is none. */
  lemma {:induction false} NoBar(s: string)
    requires Find(s, "|").None?
    ensures '|' !in s
  {
    forall k | 0 <= k < |s|
      ensures s[k] != '|'
    {
      assert !OccursAt(s, "|", k);
      assert s[k..k + 1] == [s[k]];
    }
  }
}
