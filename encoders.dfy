/**
 * The filter attribute encoders of `filter.py`: the activity bitmask of a
 * schedule, the region bit of an address and the adult price of a detail
 * page's price table.
 */
module Encoders {
  import opened Wrappers
  import opened Text
  import opened Bits

  /** The keys of `ACTIVITY_MAP`, in map order; label `k` carries bit `k`. */
  const ActivityLabels: seq<string> := ["108배", "스님과의 차담", "새벽 예불", "염주 만들기", "연등 만들기", "명상"]

  /** The keys of `REGION_MAP`, in map order; region `k` carries bit `k`. */
  const RegionLabels: seq<string> := [
    "강원", "경기", "경상남도", "경상북도", "광주", "대구", "대전", "부산", "서울",
    "인천", "전라남도", "전라북도", "제주", "충청남도", "충청북도", "울산", "세종"]

  // ---------------------------------------------------------------- activity

  /** The OR of the bits of those of the first `n` activity labels that occur in `schedule`. */
  function ActivityBits(schedule: string, n: nat): nat
    requires n <= |ActivityLabels|
  {
    if n == 0 then 0
    else
      var acc := ActivityBits(schedule, n - 1);
      if Contains(schedule, ActivityLabels[n - 1]) then Or(acc, Pow2(n - 1)) else acc
  }

  /** `extract_activity`; `None` is a `NULL` schedule. */
  function ExtractActivity(schedule: Option<string>): nat {
    if schedule.None? || schedule.value == [] then 0 else ActivityBits(schedule.value, |ActivityLabels|)
  }

  lemma {:induction false} ActivityBitsHasBit(schedule: string, n: nat, k: nat)
    requires n <= |ActivityLabels|
    ensures HasBit(ActivityBits(schedule, n), k) <==> k < n && Contains(schedule, ActivityLabels[k])
  {
    if n == 0 {
      ZeroHasNoBit(k);
    } else {
      ActivityBitsHasBit(schedule, n - 1, k);
      if Contains(schedule, ActivityLabels[n - 1]) {
        OrHasBit(ActivityBits(schedule, n - 1), Pow2(n - 1), k);
        Pow2HasBit(n - 1, k);
      }
    }
  }

  lemma {:induction false} ActivityBitsBound(schedule: string, n: nat)
    requires n <= |ActivityLabels|
    ensures ActivityBits(schedule, n) < Pow2(n)
  {
    if n > 0 {
      ActivityBitsBound(schedule, n - 1);
      Pow2Monotone(n - 1, n);
      if Contains(schedule, ActivityLabels[n - 1]) {
        OrBelow(ActivityBits(schedule, n - 1), Pow2(n - 1), n);
      }
    }
  }

  /** No label occurs in the empty string. */
  lemma NothingInEmpty(key: string)
    requires key != []
    ensures !Contains([], key)
  {}

  /**
   * The activity mask has bit `k` exactly when label `k` occurs in the schedule,
   * and no other bit: a `NULL` or empty schedule gives 0, and the mask is below 64.
   */
  lemma ExtractActivitySpec(schedule: Option<string>)
    ensures ExtractActivity(schedule) < 64
    ensures forall k: nat :: HasBit(ExtractActivity(schedule), k) <==>
      k < |ActivityLabels| && schedule.Some? && Contains(schedule.value, ActivityLabels[k])
    ensures schedule.None? || schedule.value == [] ==> ExtractActivity(schedule) == 0
  {
    assert Pow2(6) == 64;
    if schedule.None? || schedule.value == [] {
      forall k: nat ensures !HasBit(0, k) { ZeroHasNoBit(k); }
      forall k: nat | k < |ActivityLabels| && schedule.Some? ensures !Contains(schedule.value, ActivityLabels[k]) {
        NothingInEmpty(ActivityLabels[k]);
      }
    } else {
      ActivityBitsBound(schedule.value, 6);
      forall k: nat ensures HasBit(ExtractActivity(schedule), k) <==> k < 6 && Contains(schedule.value, ActivityLabels[k]) {
        ActivityBitsHasBit(schedule.value, 6, k);
      }
    }
  }

  // ------------------------------------------------------------------ region

  /** The position of the first region label, from position `i` on, that occurs in `token`. */
  function FirstRegion(token: string, i: nat): (r: Option<nat>)
    requires i <= |RegionLabels|
    ensures r.Some? ==> i <= r.value < |RegionLabels| && Contains(token, RegionLabels[r.value])
    ensures r.Some? ==> forall j :: i <= j < r.value ==> !Contains(token, RegionLabels[j])
    ensures r.None? ==> forall j :: i <= j < |RegionLabels| ==> !Contains(token, RegionLabels[j])
    decreases |RegionLabels| - i
  {
    if i == |RegionLabels| then None
    else if Contains(token, RegionLabels[i]) then Some(i)
    else FirstRegion(token, i + 1)
  }

  /**
   * `extract_region`; `None` for a `NULL` address gives `Some(0)`, and the
   * result `None` is the failure of `address.split()[0]` on an address made of
   * whitespace only.
   */
  function ExtractRegion(address: Option<string>): Option<nat> {
    if address.None? || address.value == [] then Some(0)
    else
      var ws := Words(address.value);
      if ws == [] then None
      else
        match FirstRegion(ws[0], 0)
        case None => Some(0)
        case Some(j) => Some(Pow2(j))
  }

  /** The result is 0 or one bit below bit 17. */
  predicate IsRegionBit(b: nat) {
    b == 0 || exists j :: 0 <= j < |RegionLabels| && b == Pow2(j)
  }

  /**
   * Only a non-empty whitespace-only address fails; otherwise the bit is the
   * one of the first region, in map order, that occurs in the first word of
   * the address, and 0 when there is none.
   */
  lemma ExtractRegionSpec(address: Option<string>)
    ensures ExtractRegion(address).None? <==> address.Some? && address.value != [] && AllSpace(address.value)
    ensures address.None? || address.value == [] ==> ExtractRegion(address) == Some(0)
    ensures ExtractRegion(address).Some? ==> IsRegionBit(ExtractRegion(address).value)
    ensures ExtractRegion(address).Some? ==> ExtractRegion(address).value < Pow2(|RegionLabels|)
    ensures address.Some? && !AllSpace(address.value) ==>
      var w := Words(address.value)[0];
      && (ExtractRegion(address) == Some(0) <==> forall j :: 0 <= j < |RegionLabels| ==> !Contains(w, RegionLabels[j]))
      && forall j :: 0 <= j < |RegionLabels| && ExtractRegion(address) == Some(Pow2(j)) ==>
           Contains(w, RegionLabels[j]) && forall i :: 0 <= i < j ==> !Contains(w, RegionLabels[i])
  {
    var r := ExtractRegion(address);
    if address.Some? && !AllSpace(address.value) {
      var w := Words(address.value)[0];
      match FirstRegion(w, 0)
      case None =>
      case Some(j) =>
        Pow2Monotone(j, |RegionLabels|);
        forall j' | 0 <= j' < |RegionLabels| && r == Some(Pow2(j'))
          ensures Contains(w, RegionLabels[j']) && forall i :: 0 <= i < j' ==> !Contains(w, RegionLabels[i])
        {
          Pow2Injective(j, j');
        }
    }
  }

  lemma Pow2Injective(j: nat, k: nat)
    requires Pow2(j) == Pow2(k)
    ensures j == k
  {
    if j < k { Pow2Monotone(j, k); } else if k < j { Pow2Monotone(k, j); }
  }

  // ------------------------------------------------------------------- price

  /** A row of the price table: the text of its `th` and of its `td`, when it has them. */
  datatype PriceRow = PriceRow(th: Option<string>, td: Option<string>)

  const AdultLabel: string := "성인"

  /** Row `i` has a header mentioning adults and is followed by a row with a cell. */
  predicate AdultPriceAt(rows: seq<PriceRow>, i: nat) {
    i + 1 < |rows| && rows[i].th.Some? && Contains(rows[i].th.value, AdultLabel) && rows[i + 1].td.Some?
  }

  /** The amount in a price cell: stripped, `,` and `원` removed, then `int`; 0 when that fails. */
  function PriceValue(cell: string): nat {
    ParseInt(RemoveChar(RemoveChar(Strip(cell), ','), '원')).GetOr(0)
  }

  /** The scan of `extract_price` from row `i` on: the position of the first adult row. */
  function AdultRowFrom(rows: seq<PriceRow>, i: nat): (r: Option<nat>)
    ensures r.Some? ==> i <= r.value && AdultPriceAt(rows, r.value)
    ensures r.Some? ==> forall k :: i <= k < r.value ==> !AdultPriceAt(rows, k)
    ensures r.None? ==> forall k :: i <= k ==> !AdultPriceAt(rows, k)
    decreases |rows| - i
  {
    if i >= |rows| then None
    else if AdultPriceAt(rows, i) then Some(i)
    else AdultRowFrom(rows, i + 1)
  }

  /** `extract_price`; `None` is a page without a `div.table table`. */
  function ExtractPrice(table: Option<seq<PriceRow>>): nat {
    match table
    case None => 0
    case Some(rows) =>
      match AdultRowFrom(rows, 0)
      case None => 0
      case Some(j) => PriceValue(rows[j + 1].td.value)
  }

  /** Row `j` is the first adult row of `rows`. */
  predicate FirstAdultPriceAt(rows: seq<PriceRow>, j: nat) {
    AdultPriceAt(rows, j) && forall i :: 0 <= i < j ==> !AdultPriceAt(rows, i)
  }

  /**
   * No table, or no adult row, gives 0; otherwise the price is the amount in
   * the cell of the row after the first adult row.
   */
  lemma ExtractPriceSpec(table: Option<seq<PriceRow>>)
    ensures table.None? ==> ExtractPrice(table) == 0
    ensures table.Some? && (forall i :: !AdultPriceAt(table.value, i)) ==> ExtractPrice(table) == 0
    ensures forall j :: table.Some? && FirstAdultPriceAt(table.value, j) ==>
      ExtractPrice(table) == PriceValue(table.value[j + 1].td.value)
  {
    if table.Some? {
      var rows := table.value;
      var r := AdultRowFrom(rows, 0);
      forall j | FirstAdultPriceAt(rows, j) ensures r == Some(j) {
        assert r.Some? && !(r.value < j) && !(j < r.value);
      }
    }
  }

  /** The cell `d` + `원` for a digit string `d` is stripped and has no `,`. */
  lemma AmountCell(d: string)
    requires d != [] && AllDigits(d)
    ensures Stripped(d + "원") && ',' !in d + "원" && '원' !in d && Stripped(d)
  {
    var cell := d + "원";
    assert cell[0] == d[0] && cell[|cell| - 1] == '원';
    forall i | 0 <= i < |cell| ensures cell[i] != ',' {
      if i < |d| { assert cell[i] == d[i]; }
    }
  }

  /** A cell holding an amount written in decimal followed by `원` reads back as that amount. */
  lemma PriceValueOfAmount(n: nat)
    ensures PriceValue(ToDecimal(n) + "원") == n
  {
    var d := ToDecimal(n);
    var cell := d + "원";
    AmountCell(d);
    assert Strip(cell) == cell;
    assert RemoveChar(cell, ',') == cell;
    RemoveCharConcat(d, "원", '원');
    assert RemoveChar("원", '원') == [];
    assert RemoveChar(cell, '원') == d;
    assert Strip(d) == d;
    ParseToDecimal(n);
  }
}
