/** The `/api/book` request body (org.parking.dto.BookingRequest) and the
    bean-validation constraints on its two fields. A Java `null` is `None`. */
module Booking {
  import opened Base
  import opened JavaText
  import Ledger

  datatype BookingRequest = BookingRequest(plate: Option<string>, slotId: Option<int>)

  /** The four constraint messages the request can raise. */
  datatype Violation = PlateRequired | PlateFormat | SlotRequired | SlotNotPositive

  /** `@NotBlank`: present, and not empty once trimmed (Hibernate's
      `NotBlankValidator` tests `toString().trim().length() > 0`). */
  predicate NotBlank(s: Option<string>) {
    s.Some? && !IsBlank(s.value)
  }

  predicate IsPlateChar(c: char) {
    'A' <= c <= 'Z' || '0' <= c <= '9'
  }

  /** `^[A-Z0-9]{2,10}$`, matched against the whole string. */
  predicate MatchesPlatePattern(s: string) {
    2 <= |s| <= 10 && forall i :: 0 <= i < |s| ==> IsPlateChar(s[i])
  }

  /** The violated constraints. `@Pattern` and `@Positive` accept `null`;
      `@NotBlank` and `@NotNull` are what reject it. */
  function Violations(r: BookingRequest): (v: set<Violation>)
    ensures PlateRequired in v <==> !NotBlank(r.plate)
    ensures PlateFormat in v <==> r.plate.Some? && !MatchesPlatePattern(r.plate.value)
    ensures SlotRequired in v <==> r.slotId.None?
    ensures SlotNotPositive in v <==> r.slotId.Some? && r.slotId.value <= 0
  {
    (if NotBlank(r.plate) then {} else {PlateRequired})
    + (if r.plate.Some? && !MatchesPlatePattern(r.plate.value) then {PlateFormat} else {})
    + (if r.slotId.None? then {SlotRequired} else {})
    + (if r.slotId.Some? && r.slotId.value <= 0 then {SlotNotPositive} else {})
  }

  predicate IsValid(r: BookingRequest) {
    Violations(r) == {}
  }

  /** A plate made of one control char is blank, since `trim()` drops
      every char up to U+0020: it raises both plate messages. */
  lemma ControlCharPlate(c: char, slot: int)
    requires c < ' ' && slot > 0
    ensures Violations(BookingRequest(Some([c]), Some(slot))) == {PlateRequired, PlateFormat}
  {
    assert AllSpaces([c]);
    assert !MatchesPlatePattern([c]);
  }

  /** What a request that passes validation carries: a plate of 2 to 10
      upper-case letters and digits, and a positive slot id. */
  lemma ValidRequest(r: BookingRequest)
    requires IsValid(r)
    ensures r.plate.Some? && 2 <= |r.plate.value| <= 10
    ensures forall i :: 0 <= i < |r.plate.value| ==> IsPlateChar(r.plate.value[i])
    ensures r.slotId.Some? && r.slotId.value > 0
  {
    assert PlateRequired !in Violations(r);
    assert PlateFormat !in Violations(r);
    assert SlotRequired !in Violations(r);
    assert SlotNotPositive !in Violations(r);
  }

  /** Conversely, any such plate and positive slot id pass. */
  lemma ValidWhenWellFormed(p: string, slot: int)
    requires MatchesPlatePattern(p) && slot > 0
    ensures IsValid(BookingRequest(Some(p), Some(slot)))
  {
    assert !IsSpace(p[0]);
  }

  /** A plate with a lower-case letter, a space or any other symbol is
      refused, whatever the slot. */
  lemma {:induction false} BadPlateCharRejected(p: string, slot: Option<int>, i: int)
    requires 0 <= i < |p| && !IsPlateChar(p[i])
    ensures PlateFormat in Violations(BookingRequest(Some(p), slot))
    ensures !IsValid(BookingRequest(Some(p), slot))
  {
    assert !MatchesPlatePattern(p);
  }

  /** A plate that passes validation is already in the form the ledger
      stores, so normalisation leaves it alone. */
  lemma ValidPlateIsNormal(r: BookingRequest)
    requires IsValid(r)
    ensures Ledger.NormalizePlate(r.plate.value) == r.plate.value
  {
    ValidRequest(r);
    var p := r.plate.value;
    assert !IsSpace(p[0]) && !IsSpace(p[|p| - 1]);
  }

  /** The two-argument constructor stores both values as given. */
  function Make(plate: Option<string>, slotId: Option<int>): (r: BookingRequest)
    ensures GetPlate(r) == plate && GetSlotId(r) == slotId
  {
    BookingRequest(plate, slotId)
  }

  /** The no-argument constructor leaves both fields `null`. */
  function Empty(): (r: BookingRequest)
    ensures GetPlate(r).None? && GetSlotId(r).None?
    ensures Violations(r) == {PlateRequired, SlotRequired}
  {
    BookingRequest(None, None)
  }

  function GetPlate(r: BookingRequest): Option<string> {
    r.plate
  }

  function GetSlotId(r: BookingRequest): Option<int> {
    r.slotId
  }

  function SetPlate(r: BookingRequest, plate: Option<string>): (r': BookingRequest)
    ensures GetPlate(r') == plate && GetSlotId(r') == GetSlotId(r)
  {
    r.(plate := plate)
  }

  function SetSlotId(r: BookingRequest, slotId: Option<int>): (r': BookingRequest)
    ensures GetSlotId(r') == slotId && GetPlate(r') == GetPlate(r)
  {
    r.(slotId := slotId)
  }
}
