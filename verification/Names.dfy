/** File names carry the sequence: twenty zero-padded digits and a suffix. */
module Names {
  import opened Base
  import opened Listing

  const WIDTH := 20
  const LEGACY_WIDTH := 8

  function Pow10(width: nat): (r: nat)
    ensures r > 0
  {
    if width == 0 then 1 else 10 * Pow10(width - 1)
  }

  predicate IsDigit(c: char) { '0' <= c <= '9' }

  function DigitOf(d: nat): (c: char)
    requires d < 10
    ensures IsDigit(c) && ValueOf(c) == d
  {
    d as char + '0'
  }

  function ValueOf(c: char): (d: nat)
    requires IsDigit(c)
    ensures d < 10
  {
    c as int - '0' as int
  }

  /** The last `width` decimal digits of `n`, zero-padded. */
  function Digits(n: nat, width: nat): (s: string)
    ensures |s| == width && AllDigits(s)
  {
    if width == 0 then "" else Digits(n / 10, width - 1) + [DigitOf(n % 10)]
  }

  predicate AllDigits(s: string) { forall i :: 0 <= i < |s| ==> IsDigit(s[i]) }

  function Value(s: string): (n: nat)
    requires AllDigits(s)
    ensures n < Pow10(|s|)
  {
    if s == "" then 0 else 10 * Value(s[..|s| - 1]) + ValueOf(s[|s| - 1])
  }

  lemma {:induction false} ValueOfDigits(n: nat, width: nat)
    requires n < Pow10(width)
    ensures Value(Digits(n, width)) == n
  {
    if width > 0 {
      ValueOfDigits(n / 10, width - 1);
      assert Digits(n, width)[..width - 1] == Digits(n / 10, width - 1);
    }
  }

  lemma {:induction false} DigitsOfValue(s: string)
    requires AllDigits(s)
    ensures Digits(Value(s), |s|) == s
  {
    if s != "" {
      var n := |s| - 1;
      DigitsOfValue(s[..n]);
      assert Value(s) / 10 == Value(s[..n]) && Value(s) % 10 == ValueOf(s[n]);
      assert s == s[..n] + [s[n]];
    }
  }

  lemma TwentyIsEnough()
    ensures MAX_SEQUENCE < Pow10(WIDTH)
  {
    assert Pow10(4) == 10 * Pow10(3) == 10_000;
    assert Pow10(8) == 10 * (10 * (10 * (10 * Pow10(4))));
    assert Pow10(12) == 10 * (10 * (10 * (10 * Pow10(8))));
    assert Pow10(16) == 10 * (10 * (10 * (10 * Pow10(12))));
    assert Pow10(20) == 10 * (10 * (10 * (10 * Pow10(16))));
  }

  // ----- printing and parsing names -----

  /** `segmentName` and `snapshotName`. */
  function FileName(sequence: uint64, suffix: string): string { Digits(sequence, WIDTH) + suffix }

  predicate HasSuffix(name: string, suffix: string) {
    |suffix| <= |name| && name[|name| - |suffix|..] == suffix
  }

  /** `strconv.ParseUint(stem, 10, 64)`. */
  function ParseUint(stem: string): Option<uint64> {
    if stem == "" || !AllDigits(stem) || Value(stem) > MAX_SEQUENCE then None else Some(Value(stem))
  }

  /** `parseSequenceFilename`, for names that carry the suffix. */
  function ParseName(name: string, suffix: string, allowZero: bool): Option<uint64> {
    var stem := if HasSuffix(name, suffix) then name[..|name| - |suffix|] else name;
    if |stem| != LEGACY_WIDTH && |stem| != WIDTH then None
    else
      match ParseUint(stem)
      case None => None
      case Some(sequence) => if sequence == 0 && !allowZero then None else Some(sequence)
  }

  /** Every name the store writes parses to the sequence it was made from. */
  lemma NameRoundTrip(sequence: uint64, suffix: string, allowZero: bool)
    requires allowZero || sequence > 0
    ensures HasSuffix(FileName(sequence, suffix), suffix)
    ensures ParseName(FileName(sequence, suffix), suffix, allowZero) == Some(sequence)
  {
    hide Digits, Value, Pow10;
    TwentyIsEnough();
    ValueOfDigits(sequence, WIDTH);
    var name := FileName(sequence, suffix);
    assert name[..|name| - |suffix|] == Digits(sequence, WIDTH);
    assert name[|name| - |suffix|..] == suffix;
  }

  /** The names taken, exactly: twenty digits, or eight as in older stores, of a sequence
      that is not zero unless zero is allowed. */
  lemma ParsesExactly(stem: string, suffix: string, allowZero: bool, sequence: uint64)
    ensures ParseName(stem + suffix, suffix, allowZero) == Some(sequence)
       <==> && (stem == Digits(sequence, 20) || (sequence < 100_000_000 && stem == Digits(sequence, 8)))
            && (sequence > 0 || allowZero)
  {
    hide Digits, Value, Pow10;
    TwentyIsEnough();
    EightDigits();
    var name := stem + suffix;
    assert name[..|name| - |suffix|] == stem && name[|name| - |suffix|..] == suffix;
    if AllDigits(stem) { DigitsOfValue(stem); }
    ValueOfDigits(sequence, 20);
    if sequence < 100_000_000 { ValueOfDigits(sequence, 8); }
  }

  lemma EightDigits()
    ensures Pow10(8) == 100_000_000
  {
    assert Pow10(4) == 10 * Pow10(3) == 10_000;
    assert Pow10(8) == 10 * (10 * (10 * (10 * Pow10(4))));
  }

  /** Two names of the same length that parse alike are the same name: only the two
      widths can make one sequence twice. */
  lemma SameLengthSameName(a: string, b: string, suffix: string, allowZero: bool)
    requires |a| == |b| && HasSuffix(a, suffix) && HasSuffix(b, suffix)
    requires ParseName(a, suffix, allowZero).Some? && ParseName(a, suffix, allowZero) == ParseName(b, suffix, allowZero)
    ensures a == b
  {
    hide Digits, Value, Pow10;
    var n := |a| - |suffix|;
    DigitsOfValue(a[..n]);
    DigitsOfValue(b[..n]);
    assert a == a[..n] + a[n..] && b == b[..n] + b[n..];
  }

  // ----- lexical order is sequence order -----

  predicate LexLess(a: string, b: string) {
    b != "" && (a == "" || a[0] < b[0] || (a[0] == b[0] && LexLess(a[1..], b[1..])))
  }

  lemma {:induction false} LexLessLast(a: string, b: string, c: char, d: char)
    requires |a| == |b|
    ensures LexLess(a + [c], b + [d]) <==> LexLess(a, b) || (a == b && c < d)
    decreases |a|
  {
    if a == "" {
      assert (a + [c])[1..] == "" && (b + [d])[1..] == "";
    } else {
      LexLessLast(a[1..], b[1..], c, d);
      assert (a + [c])[1..] == a[1..] + [c] && (b + [d])[1..] == b[1..] + [d];
      assert a == [a[0]] + a[1..] && b == [b[0]] + b[1..];
    }
  }

  /** Names of one width sort as text the way their sequences sort as numbers. */
  lemma {:induction false} LexOrder(m: nat, n: nat, width: nat)
    requires m < Pow10(width) && n < Pow10(width)
    ensures LexLess(Digits(m, width), Digits(n, width)) <==> m < n
  {
    if width > 0 {
      LexOrder(m / 10, n / 10, width - 1);
      LexLessLast(Digits(m / 10, width - 1), Digits(n / 10, width - 1), DigitOf(m % 10), DigitOf(n % 10));
      if Digits(m / 10, width - 1) == Digits(n / 10, width - 1) {
        ValueOfDigits(m / 10, width - 1);
        ValueOfDigits(n / 10, width - 1);
      }
    }
  }

  // ----- listing a directory -----

  datatype DirectoryListing = Listed(sequences: seq<int>) | InvalidName(name: string) | DuplicateSequence(sequence: uint64)

  predicate NameAt(names: seq<string>, suffix: string, allowZero: bool, i: nat, x: int)
    requires i < |names|
  {
    HasSuffix(names[i], suffix) && ParseName(names[i], suffix, allowZero) == Some(x)
  }

  /** Some file of the directory carries sequence `x`. */
  ghost predicate Carries(names: seq<string>, suffix: string, allowZero: bool, x: int) {
    exists i :: 0 <= i < |names| && NameAt(names, suffix, allowZero, i, x)
  }

  /** `listSegments` and `listSnapshots`: refuse a malformed or doubly named
      sequence, otherwise list what the names carry in sequence order. */
  method ListFiles(names: seq<string>, suffix: string, allowZero: bool) returns (r: DirectoryListing)
    ensures r.Listed? ==>
      && StrictlyAscending(r.sequences)
      && (forall x :: x in r.sequences <==> Carries(names, suffix, allowZero, x))
      && (forall i :: 0 <= i < |names| && HasSuffix(names[i], suffix) ==> ParseName(names[i], suffix, allowZero).Some?)
      && (forall i, j, x :: 0 <= i < j < |names| && NameAt(names, suffix, allowZero, i, x) ==> !NameAt(names, suffix, allowZero, j, x))
    ensures r.InvalidName? ==>
      r.name in names && HasSuffix(r.name, suffix) && ParseName(r.name, suffix, allowZero).None?
    ensures r.DuplicateSequence? ==>
      exists i, j :: 0 <= i < j < |names| && NameAt(names, suffix, allowZero, i, r.sequence) && NameAt(names, suffix, allowZero, j, r.sequence)
  {
    hide ParseName, HasSuffix;
    var seen: set<int> := {};
    for n := 0 to |names|
      invariant forall x :: x in seen ==> exists i :: 0 <= i < n && NameAt(names, suffix, allowZero, i, x)
      invariant forall i, x :: 0 <= i < n && NameAt(names, suffix, allowZero, i, x) ==> x in seen
      invariant forall i :: 0 <= i < n && HasSuffix(names[i], suffix) ==> ParseName(names[i], suffix, allowZero).Some?
      invariant forall i, j, x :: 0 <= i < j < n && NameAt(names, suffix, allowZero, i, x) ==> !NameAt(names, suffix, allowZero, j, x)
    {
      if HasSuffix(names[n], suffix) {
        match ParseName(names[n], suffix, allowZero)
        case None => return InvalidName(names[n]);
        case Some(sequence) =>
          assert NameAt(names, suffix, allowZero, n, sequence);
          if sequence in seen { return DuplicateSequence(sequence); }
          seen := seen + {sequence};
      }
    }
    r := Listed(Ascending(seen));
    forall x
      ensures x in r.sequences <==> Carries(names, suffix, allowZero, x)
    {
    }
  }

  /** The files of a store: its segments and snapshots under their current names, and
      whatever else lies in the directory without either suffix. */
  ghost predicate NamesOf(names: seq<string>, suffix: string, sequences: set<int>, allowZero: bool) {
    && (forall x :: x in sequences ==> 0 <= x <= MAX_SEQUENCE && (x > 0 || allowZero))
    && (forall i :: 0 <= i < |names| && HasSuffix(names[i], suffix) ==> WrittenFor(names[i], suffix, sequences))
    && (forall x :: x in sequences ==> exists i :: 0 <= i < |names| && WrittenAs(names[i], suffix, x))
    && (forall i, j :: 0 <= i < j < |names| ==> names[i] != names[j])
  }

  predicate WrittenAs(name: string, suffix: string, x: int) { 0 <= x <= MAX_SEQUENCE && name == FileName(x, suffix) }

  ghost predicate WrittenFor(name: string, suffix: string, sequences: set<int>) {
    exists x :: x in sequences && WrittenAs(name, suffix, x)
  }

  lemma WrittenParses(name: string, suffix: string, sequences: set<int>, allowZero: bool) returns (x: uint64)
    requires WrittenFor(name, suffix, sequences) && forall x :: x in sequences ==> 0 <= x <= MAX_SEQUENCE && (x > 0 || allowZero)
    ensures x in sequences && WrittenAs(name, suffix, x) && ParseName(name, suffix, allowZero) == Some(x)
  {
    hide ParseName, FileName;
    x :| x in sequences && WrittenAs(name, suffix, x);
    NameRoundTrip(x, suffix, allowZero);
  }

  /** A directory the store wrote lists as exactly the sequences it wrote, in order. */
  lemma ListingOfWritten(names: seq<string>, suffix: string, sequences: set<int>, allowZero: bool, r: seq<int>)
    requires NamesOf(names, suffix, sequences, allowZero)
    requires StrictlyAscending(r) && forall x :: x in r <==> Carries(names, suffix, allowZero, x)
    ensures r == Ascending(sequences)
  {
    hide ParseName, FileName, HasSuffix, Ascending;
    forall x
      ensures x in r <==> x in sequences
    {
      if x in sequences {
        var i :| 0 <= i < |names| && WrittenAs(names[i], suffix, x);
        NameRoundTrip(x, suffix, allowZero);
        assert NameAt(names, suffix, allowZero, i, x);
      }
      if Carries(names, suffix, allowZero, x) {
        var i :| 0 <= i < |names| && NameAt(names, suffix, allowZero, i, x);
        assert WrittenFor(names[i], suffix, sequences);
        var y := WrittenParses(names[i], suffix, sequences, allowZero);
      }
    }
    AscendingIsUnique(r, sequences);
  }

  /** Such a directory is never refused: every name parses and no sequence comes twice. */
  lemma WrittenIsListed(names: seq<string>, suffix: string, sequences: set<int>, allowZero: bool)
    requires NamesOf(names, suffix, sequences, allowZero)
    ensures forall i :: 0 <= i < |names| && HasSuffix(names[i], suffix) ==> ParseName(names[i], suffix, allowZero).Some?
    ensures forall i, j, x :: 0 <= i < j < |names| && NameAt(names, suffix, allowZero, i, x) ==> !NameAt(names, suffix, allowZero, j, x)
  {
    hide ParseName, FileName, HasSuffix;
    forall i | 0 <= i < |names| && HasSuffix(names[i], suffix)
      ensures ParseName(names[i], suffix, allowZero).Some?
    {
      var x := WrittenParses(names[i], suffix, sequences, allowZero);
    }
    forall i, j, x | 0 <= i < j < |names| && NameAt(names, suffix, allowZero, i, x)
      ensures !NameAt(names, suffix, allowZero, j, x)
    {
      if NameAt(names, suffix, allowZero, j, x) {
        var y := WrittenParses(names[i], suffix, sequences, allowZero);
        var z := WrittenParses(names[j], suffix, sequences, allowZero);
        assert false;
      }
    }
  }
}
