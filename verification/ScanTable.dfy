/** What the access-point aggregation computes: which addresses were seen, how often, and how strongly. */
module ScanTable {
  import Arith
  import opened ScanText

  const TABLE_SIZE: nat := 50

  /** One record of a scan; the signal strength is an int8_t. */
  datatype Record = Record(bssid: Bssid, rssi: int)

  predicate ValidRecord(r: Record) {
    ValidBssid(r.bssid) && -128 <= r.rssi < 128
  }

  predicate ValidRecords(records: seq<Record>) {
    forall i :: 0 <= i < |records| ==> ValidRecord(records[i])
  }

  /** A table entry: uint8_t counter, int16_t sum of signal strengths. */
  datatype ApRecord = ApRecord(nOcc: nat, bssid: Bssid, rssi: int)

  ghost function Flatten(scans: seq<seq<Record>>): seq<Record>
    decreases |scans|
  {
    if scans == [] then [] else Flatten(scans[..|scans| - 1]) + scans[|scans| - 1]
  }

  /** Assignment to int16_t. */
  function Int16(n: int): (r: int)
    ensures -32768 <= r < 32768
  {
    (n + 32768) % 65536 - 32768
  }

  lemma Int16Near(n: int)
    ensures -32768 <= n < 32768 ==> Int16(n) == n
  {
  }

  lemma Int16Adds(n: int, m: int)
    ensures Int16(Int16(n) + m) == Int16(n + m)
  {
    var q := (n + 32768) / 65536;
    assert Int16(n) == n - 65536 * q;
    assert (n + m + 32768) % 65536 == (n - 65536 * q + m + 32768) % 65536;
  }

  // --- The simple map ------------------------------------------------------------------------------------------

  /** The addresses in the order of their first sighting. */
  ghost function Distinct(records: seq<Record>): seq<Bssid>
    decreases |records|
  {
    if records == [] then []
    else
      var before, bssid := Distinct(records[..|records| - 1]), records[|records| - 1].bssid;
      if bssid in before then before else before + [bssid]
  }

  ghost function Count(records: seq<Record>, bssid: Bssid): nat
    decreases |records|
  {
    if records == [] then 0
    else Count(records[..|records| - 1], bssid) + if records[|records| - 1].bssid == bssid then 1 else 0
  }

  ghost function Sum(records: seq<Record>, bssid: Bssid): int
    decreases |records|
  {
    if records == [] then 0
    else
      var last := records[|records| - 1];
      Sum(records[..|records| - 1], bssid) + if last.bssid == bssid then last.rssi else 0
  }

  /** The table row of an address: the count in eight bits, the sum in sixteen. */
  ghost function RowOf(records: seq<Record>, bssid: Bssid): ApRecord {
    ApRecord(Count(records, bssid) % 256, bssid, Int16(Sum(records, bssid)))
  }

  ghost function Summary(records: seq<Record>): (rows: seq<ApRecord>)
    ensures |rows| == |Distinct(records)|
    ensures forall i :: 0 <= i < |rows| ==> rows[i] == RowOf(records, Distinct(records)[i])
  {
    seq(|Distinct(records)|, i requires 0 <= i < |Distinct(records)| => RowOf(records, Distinct(records)[i]))
  }

  /** Where an address stands among the records. */
  ghost function Places(records: seq<Record>, bssid: Bssid): set<nat> {
    set i | 0 <= i < |records| && records[i].bssid == bssid
  }

  lemma PlacesOfMore(records: seq<Record>, r: Record, bssid: Bssid)
    ensures Places(records + [r], bssid) ==
              Places(records, bssid) + if r.bssid == bssid then {|records|} else {}
    ensures |records| !in Places(records, bssid)
  {
    var more := records + [r];
    forall i: nat
      ensures i in Places(more, bssid) <==> i in Places(records, bssid) || (i == |records| && r.bssid == bssid)
    {
      if i < |records| {
        assert more[i] == records[i];
      }
    }
  }

  /** The count of an address is the number of places where it stands. */
  lemma {:induction false} CountIsMultiplicity(records: seq<Record>, bssid: Bssid)
    ensures Count(records, bssid) == |Places(records, bssid)|
    decreases |records|
  {
    if records == [] {
      assert Places(records, bssid) == {};
    } else {
      var before, last := records[..|records| - 1], records[|records| - 1];
      CountIsMultiplicity(before, bssid);
      OneMore(before, last, bssid);
      PlacesOfMore(before, last, bssid);
      assert records == before + [last];
      hide Places, Count;
    }
  }

  /** A row's sum is the sum of its signals in sixteen bits, however many there are. */
  lemma RowWraps(records: seq<Record>, bssid: Bssid)
    ensures var row := RowOf(records, bssid);
            && row.bssid == bssid
            && 0 <= row.nOcc < 256 && (Count(records, bssid) - row.nOcc) % 256 == 0
            && -32768 <= row.rssi < 32768 && (Sum(records, bssid) - row.rssi) % 65536 == 0
  {
    hide Count, Sum;
    var n := Sum(records, bssid) + 32768;
    assert Sum(records, bssid) - Int16(Sum(records, bssid)) == n - n % 65536;
    assert n == n / 65536 * 65536 + n % 65536;
    Multiple(n / 65536, 65536);
    var c := Count(records, bssid);
    assert c - c % 256 == c / 256 * 256;
    Multiple(c / 256, 256);
  }

  lemma Multiple(k: int, d: nat)
    requires d > 0
    ensures k * d % d == 0
  {
    Arith.DivUnique(k * d, d, k, 0);
  }

  // --- One more record ---------------------------------------------------------------------------------------------

  lemma OneMore(records: seq<Record>, r: Record, bssid: Bssid)
    ensures Distinct(records + [r]) == if r.bssid in Distinct(records) then Distinct(records)
                                       else Distinct(records) + [r.bssid]
    ensures Count(records + [r], bssid) == Count(records, bssid) + if r.bssid == bssid then 1 else 0
    ensures Sum(records + [r], bssid) == Sum(records, bssid) + if r.bssid == bssid then r.rssi else 0
  {
    var more := records + [r];
    assert more[..|more| - 1] == records && more[|more| - 1] == r;
  }

  /** The table's keys are distinct, and they are exactly the addresses in the input. */
  lemma {:induction false} DistinctKeys(records: seq<Record>)
    ensures forall i, j :: 0 <= i < j < |Distinct(records)| ==> Distinct(records)[i] != Distinct(records)[j]
    ensures forall bssid :: bssid in Distinct(records) <==> exists i :: 0 <= i < |records| && records[i].bssid == bssid
    ensures forall bssid :: bssid in Distinct(records) <==> Count(records, bssid) > 0
    decreases |records|
  {
    if records != [] {
      var before, last := records[..|records| - 1], records[|records| - 1];
      DistinctKeys(before);
      assert records == before + [last];
      forall bssid
        ensures bssid in Distinct(records) <==> exists i :: 0 <= i < |records| && records[i].bssid == bssid
        ensures bssid in Distinct(records) <==> Count(records, bssid) > 0
      {
        OneMore(before, last, bssid);
        KeyOfMore(before, last, bssid);
        hide Distinct, Count;
      }
    }
  }

  lemma KeyOfMore(before: seq<Record>, last: Record, bssid: Bssid)
    ensures (exists i :: 0 <= i < |before + [last]| && (before + [last])[i].bssid == bssid) <==>
            last.bssid == bssid || exists i :: 0 <= i < |before| && before[i].bssid == bssid
  {
    var all := before + [last];
    assert all[|before|] == last;
    assert forall i :: 0 <= i < |before| ==> all[i] == before[i];
  }

  /** Later records only add keys at the end. */
  lemma {:induction false} DistinctGrows(records: seq<Record>, more: seq<Record>)
    ensures Distinct(records) <= Distinct(records + more)
    decreases |more|
  {
    if more == [] {
      assert records + more == records;
    } else {
      var init, last := more[..|more| - 1], more[|more| - 1];
      DistinctGrows(records, init);
      assert records + more == (records + init) + [last];
      OneMore(records + init, last, last.bssid);
      hide Distinct;
    }
  }

  /** A row after one more record of its own address. */
  function Bumped(row: ApRecord, r: Record): ApRecord {
    ApRecord((row.nOcc + 1) % 256, row.bssid, Int16(row.rssi + r.rssi))
  }

  lemma RowOfMore(records: seq<Record>, r: Record, bssid: Bssid)
    requires ValidRecord(r)
    ensures RowOf(records + [r], bssid) == if r.bssid == bssid then Bumped(RowOf(records, bssid), r)
                                           else RowOf(records, bssid)
  {
    hide Distinct, Count, Sum, Int16;
    OneMore(records, r, bssid);
    Int16Adds(Sum(records, bssid), r.rssi);
  }

  lemma NewRow(records: seq<Record>, r: Record)
    requires ValidRecord(r) && r.bssid !in Distinct(records)
    ensures RowOf(records + [r], r.bssid) == ApRecord(1, r.bssid, r.rssi)
  {
    DistinctKeys(records);
    NoneSummed(records, r.bssid);
    OneMore(records, r, r.bssid);
    Int16Near(r.rssi);
    hide Distinct, Count, Sum, Int16;
  }

  lemma {:induction false} NoneSummed(records: seq<Record>, bssid: Bssid)
    requires Count(records, bssid) == 0
    ensures Sum(records, bssid) == 0
    decreases |records|
  {
    if records != [] {
      NoneSummed(records[..|records| - 1], bssid);
    }
  }

  /** A record of a known address changes its own row and no other. */
  lemma SummaryKnown(records: seq<Record>, r: Record, k: nat)
    requires ValidRecord(r) && k < |Distinct(records)| && Distinct(records)[k] == r.bssid
    ensures Summary(records + [r]) == Summary(records)[k := Bumped(Summary(records)[k], r)]
  {
    OneMore(records, r, r.bssid);
    DistinctKeys(records);
    hide Distinct, RowOf, Bumped;
    forall i | 0 <= i < |Distinct(records)|
      ensures Summary(records + [r])[i] == if i == k then Bumped(Summary(records)[k], r) else Summary(records)[i]
    {
      RowOfMore(records, r, Distinct(records)[i]);
    }
  }

  /** A record of a new address adds a row at the end. */
  lemma SummaryNew(records: seq<Record>, r: Record)
    requires ValidRecord(r) && r.bssid !in Distinct(records)
    ensures Summary(records + [r]) == Summary(records) + [ApRecord(1, r.bssid, r.rssi)]
  {
    OneMore(records, r, r.bssid);
    NewRow(records, r);
    hide Distinct, RowOf;
    forall i | 0 <= i < |Distinct(records)|
      ensures Summary(records + [r])[i] == Summary(records)[i]
    {
      RowOfMore(records, r, Distinct(records)[i]);
    }
  }

  // --- Averages ----------------------------------------------------------------------------------------------------

  /** C's division: truncation toward zero. */
  function Divide(a: int, b: nat): int
    requires b > 0
  {
    if a >= 0 then a / b else -(-a / b)
  }

  /** `(uint16_t)(rssi / n_occ)` assigned back to int16_t. */
  function Average(row: ApRecord): int
    requires row.nOcc > 0
  {
    Int16(Divide(row.rssi, row.nOcc) % 65536)
  }

  function LineOf(row: ApRecord): Line
    requires row.nOcc > 0
  {
    Line(row.bssid, Average(row), row.nOcc)
  }

  lemma {:induction false} SumBounds(records: seq<Record>, bssid: Bssid, lo: int, hi: int)
    requires forall i :: 0 <= i < |records| && records[i].bssid == bssid ==> lo <= records[i].rssi <= hi
    ensures lo * Count(records, bssid) <= Sum(records, bssid) <= hi * Count(records, bssid)
    decreases |records|
  {
    if records != [] {
      SumBounds(records[..|records| - 1], bssid, lo, hi);
      var last, c := records[|records| - 1], Count(records[..|records| - 1], bssid);
      if last.bssid == bssid {
        assert lo * (c + 1) == lo * c + lo && hi * (c + 1) == hi * c + hi;
      }
    }
  }

  lemma DivideBounds(a: int, c: nat, lo: int, hi: int)
    requires c > 0 && lo * c <= a <= hi * c
    ensures lo <= Divide(a, c) <= hi
  {
    if a >= 0 {
      QuotientBounds(a, c, lo, hi);
    } else {
      assert (-hi) * c == -(hi * c) && (-lo) * c == -(lo * c);
      QuotientBounds(-a, c, -hi, -lo);
    }
  }

  lemma QuotientBounds(a: nat, c: nat, lo: int, hi: int)
    requires c > 0 && lo * c <= a <= hi * c
    ensures lo <= a / c <= hi
  {
    var q := a / c;
    assert a == q * c + a % c;
    assert (q + 1) * c == q * c + c && (hi + 1) * c == hi * c + c;
    if q < lo {
      Scaled(q + 1, lo, c);
    }
    if q > hi {
      Scaled(hi + 1, q, c);
    }
  }

  lemma Scaled(a: int, b: int, c: nat)
    requires a <= b
    ensures a * c <= b * c
  {
  }

  function Abs(n: int): nat {
    if n < 0 then -n else n
  }

  /** `q` is a / c with the fraction cut off: the quotient's magnitude is the largest that fits, its sign is a's. */
  predicate Truncated(a: int, c: nat, q: int) {
    && Abs(q) * c <= Abs(a) < (Abs(q) + 1) * c
    && (a >= 0 ==> q >= 0)
    && (a <= 0 ==> q <= 0)
  }

  lemma DivideTruncates(a: int, c: nat)
    requires c > 0
    ensures Truncated(a, c, Divide(a, c))
  {
    QuotientFits(Abs(a), c);
    var n := Abs(a) / c;
    assert Abs(Divide(a, c)) == n;
  }

  lemma QuotientFits(n: nat, c: nat)
    requires c > 0
    ensures 0 <= n / c && n / c * c <= n < (n / c + 1) * c
  {
    var q := n / c;
    assert n == q * c + n % c;
    assert (q + 1) * c == q * c + c;
  }

  /** The averaging divides what the row holds, and the two casts keep the quotient. */
  lemma AverageTruncates(row: ApRecord)
    requires 0 < row.nOcc < 256 && -32768 <= row.rssi < 32768
    ensures Truncated(row.rssi, row.nOcc, Average(row))
  {
    DivideTruncates(row.rssi, row.nOcc);
    Shrinks(row.rssi, row.nOcc, Divide(row.rssi, row.nOcc));
    hide Divide;
    Stored(Divide(row.rssi, row.nOcc));
    hide Int16;
  }

  lemma Shrinks(a: int, c: nat, q: int)
    requires c > 0 && Truncated(a, c, q)
    ensures a >= 0 ==> 0 <= q <= a
    ensures a <= 0 ==> a <= q <= 0
  {
    Scaled(1, c, Abs(q));
  }

  /** Main result: an address seen at most 255 times, with its signal between `lo` and `hi`, gets its exact count
      and sum, and as average their quotient truncated toward zero, which lies between `lo` and `hi`. */
  lemma AverageExact(records: seq<Record>, bssid: Bssid, lo: int, hi: int)
    requires 0 < Count(records, bssid) <= 255 && -128 <= lo && hi < 128
    requires forall i :: 0 <= i < |records| && records[i].bssid == bssid ==> lo <= records[i].rssi <= hi
    ensures var row := RowOf(records, bssid);
            && row.nOcc == Count(records, bssid)
            && row.rssi == Sum(records, bssid)
            && Truncated(Sum(records, bssid), Count(records, bssid), Average(row))
            && lo <= Average(row) <= hi
  {
    var c, s := Count(records, bssid), Sum(records, bssid);
    SumBounds(records, bssid, lo, hi);
    ScaledBoth(lo, hi, c);
    DivideBounds(s, c, lo, hi);
    Stored(s);
    Stored(Divide(s, c));
    DivideTruncates(s, c);
    hide Count, Sum, Divide, Int16, Truncated;
  }

  /** A value in range survives the two casts. */
  lemma Stored(n: int)
    requires -32768 <= n < 32768
    ensures Int16(n) == n && Int16(n % 65536) == n
  {
  }

  lemma ScaledBoth(lo: int, hi: int, c: nat)
    requires c <= 255 && -128 <= lo && hi < 128
    ensures -128 * 255 <= lo * c && hi * c <= 127 * 255
  {
    Scaled(-128, lo, c);
    Scaled(hi, 127, c);
  }

  /** The counter is exact if and only if the address was seen at most 255 times, and a multiple of 256 sightings
      leaves it at zero, which the averaging pass then divides by. */
  lemma CounterExactIff(records: seq<Record>, bssid: Bssid)
    ensures RowOf(records, bssid).nOcc == Count(records, bssid) <==> Count(records, bssid) <= 255
    ensures bssid in Distinct(records) ==> (RowOf(records, bssid).nOcc == 0 <==> Count(records, bssid) % 256 == 0)
  {
    hide Count, Sum, Distinct;
  }
}
