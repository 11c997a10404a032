/** The time-zone choices offered by the create dialog and the fallback used
    when the browser cannot name its own zone (src/config/timezones.ts). */
module Timezones {
  import opened Wrappers
  import Lookup

  datatype TimezoneOption = TimezoneOption(value: string, labelText: string, offset: string)

  function TimezoneValue(tz: TimezoneOption): string {
    tz.value
  }

  /** The number of entries in the table. */
  const TimezoneCount: nat := 53

  /** The i-th entry of the table, in the order the select list shows them. */
  function TimezoneAt(i: nat): TimezoneOption
    requires i < TimezoneCount
  {
    match i
    case 0 => TimezoneOption("UTC", "UTC (Coordinated Universal Time)", "UTC+0")
    case 1 => TimezoneOption("America/New_York", "Eastern Time (ET)", "UTC-5/-4")
    case 2 => TimezoneOption("America/Chicago", "Central Time (CT)", "UTC-6/-5")
    case 3 => TimezoneOption("America/Denver", "Mountain Time (MT)", "UTC-7/-6")
    case 4 => TimezoneOption("America/Los_Angeles", "Pacific Time (PT)", "UTC-8/-7")
    case 5 => TimezoneOption("America/Anchorage", "Alaska Time (AT)", "UTC-9/-8")
    case 6 => TimezoneOption("Pacific/Honolulu", "Hawaii Time (HT)", "UTC-10")
    case 7 => TimezoneOption("Europe/London", "Greenwich Mean Time (GMT)", "UTC+0/+1")
    case 8 => TimezoneOption("Europe/Paris", "Central European Time (CET)", "UTC+1/+2")
    case 9 => TimezoneOption("Europe/Berlin", "Central European Time (CET)", "UTC+1/+2")
    case 10 => TimezoneOption("Europe/Rome", "Central European Time (CET)", "UTC+1/+2")
    case 11 => TimezoneOption("Europe/Madrid", "Central European Time (CET)", "UTC+1/+2")
    case 12 => TimezoneOption("Europe/Amsterdam", "Central European Time (CET)", "UTC+1/+2")
    case 13 => TimezoneOption("Europe/Stockholm", "Central European Time (CET)", "UTC+1/+2")
    case 14 => TimezoneOption("Europe/Vienna", "Central European Time (CET)", "UTC+1/+2")
    case 15 => TimezoneOption("Europe/Zurich", "Central European Time (CET)", "UTC+1/+2")
    case 16 => TimezoneOption("Europe/Dublin", "Greenwich Mean Time (GMT)", "UTC+0/+1")
    case 17 => TimezoneOption("Europe/Brussels", "Central European Time (CET)", "UTC+1/+2")
    case 18 => TimezoneOption("Europe/Copenhagen", "Central European Time (CET)", "UTC+1/+2")
    case 19 => TimezoneOption("Europe/Helsinki", "Eastern European Time (EET)", "UTC+2/+3")
    case 20 => TimezoneOption("Europe/Warsaw", "Central European Time (CET)", "UTC+1/+2")
    case 21 => TimezoneOption("Europe/Prague", "Central European Time (CET)", "UTC+1/+2")
    case 22 => TimezoneOption("Europe/Budapest", "Central European Time (CET)", "UTC+1/+2")
    case 23 => TimezoneOption("Europe/Athens", "Eastern European Time (EET)", "UTC+2/+3")
    case 24 => TimezoneOption("Europe/Istanbul", "Turkey Time (TRT)", "UTC+3")
    case 25 => TimezoneOption("Europe/Moscow", "Moscow Time (MSK)", "UTC+3")
    case 26 => TimezoneOption("Asia/Tokyo", "Japan Standard Time (JST)", "UTC+9")
    case 27 => TimezoneOption("Asia/Shanghai", "China Standard Time (CST)", "UTC+8")
    case 28 => TimezoneOption("Asia/Hong_Kong", "Hong Kong Time (HKT)", "UTC+8")
    case 29 => TimezoneOption("Asia/Singapore", "Singapore Time (SGT)", "UTC+8")
    case 30 => TimezoneOption("Asia/Seoul", "Korea Standard Time (KST)", "UTC+9")
    case 31 => TimezoneOption("Asia/Kolkata", "India Standard Time (IST)", "UTC+5:30")
    case 32 => TimezoneOption("Asia/Dubai", "Gulf Standard Time (GST)", "UTC+4")
    case 33 => TimezoneOption("Asia/Bangkok", "Indochina Time (ICT)", "UTC+7")
    case 34 => TimezoneOption("Asia/Jakarta", "Western Indonesia Time (WIB)", "UTC+7")
    case 35 => TimezoneOption("Asia/Manila", "Philippine Time (PHT)", "UTC+8")
    case 36 => TimezoneOption("Australia/Sydney", "Australian Eastern Time (AET)", "UTC+10/+11")
    case 37 => TimezoneOption("Australia/Melbourne", "Australian Eastern Time (AET)", "UTC+10/+11")
    case 38 => TimezoneOption("Australia/Brisbane", "Australian Eastern Time (AET)", "UTC+10")
    case 39 => TimezoneOption("Australia/Perth", "Australian Western Time (AWT)", "UTC+8")
    case 40 => TimezoneOption("Pacific/Auckland", "New Zealand Time (NZST)", "UTC+12/+13")
    case 41 => TimezoneOption("America/Toronto", "Eastern Time (ET)", "UTC-5/-4")
    case 42 => TimezoneOption("America/Vancouver", "Pacific Time (PT)", "UTC-8/-7")
    case 43 => TimezoneOption("America/Mexico_City", "Central Time (CT)", "UTC-6/-5")
    case 44 => TimezoneOption("America/Sao_Paulo", "Brasilia Time (BRT)", "UTC-3")
    case 45 => TimezoneOption("America/Buenos_Aires", "Argentina Time (ART)", "UTC-3")
    case 46 => TimezoneOption("America/Lima", "Peru Time (PET)", "UTC-5")
    case 47 => TimezoneOption("America/Bogota", "Colombia Time (COT)", "UTC-5")
    case 48 => TimezoneOption("America/Caracas", "Venezuela Time (VET)", "UTC-4")
    case 49 => TimezoneOption("Africa/Cairo", "Eastern European Time (EET)", "UTC+2")
    case 50 => TimezoneOption("Africa/Johannesburg", "South Africa Time (SAST)", "UTC+2")
    case 51 => TimezoneOption("Africa/Lagos", "West Africa Time (WAT)", "UTC+1")
    case 52 => TimezoneOption("Africa/Casablanca", "Western European Time (WET)", "UTC+0/+1")
  }

  /** `TIMEZONES`. */
  function AllTimezones(): (r: seq<TimezoneOption>)
    ensures |r| == TimezoneCount
    ensures forall i :: 0 <= i < TimezoneCount ==> r[i] == TimezoneAt(i)
  {
    seq(TimezoneCount, i requires 0 <= i < TimezoneCount => TimezoneAt(i))
  }

  /** The zone assumed when the browser's zone cannot be determined. */
  const FallbackZone: string := "UTC"

  /** Zone identifiers are unique in the table. The pairs are checked a few
      rows at a time, below. */
  lemma {:induction false} TimezoneValuesDistinct()
    ensures Lookup.KeysDistinct(AllTimezones(), TimezoneValue)
  {
    ZoneRowsDistinct0To3();
    ZoneRowsDistinct3To7();
    ZoneRowsDistinct7To11();
    ZoneRowsDistinct11To15();
    ZoneRowsDistinct15To20();
    ZoneRowsDistinct20To25();
    ZoneRowsDistinct25To30();
    ZoneRowsDistinct30To35();
    ZoneRowsDistinct35To40();
    ZoneRowsDistinct40To45();
    ZoneRowsDistinct45To50();
    ZoneRowsDistinct50To53();
  }

  lemma ZoneRowsDistinct0To3()
    ensures forall i, j :: 0 <= i < 3 && i < j < |AllTimezones()| ==> AllTimezones()[i].value != AllTimezones()[j].value
  {
  }

  lemma ZoneRowsDistinct3To7()
    ensures forall i, j :: 3 <= i < 7 && i < j < |AllTimezones()| ==> AllTimezones()[i].value != AllTimezones()[j].value
  {
  }

  lemma ZoneRowsDistinct7To11()
    ensures forall i, j :: 7 <= i < 11 && i < j < |AllTimezones()| ==> AllTimezones()[i].value != AllTimezones()[j].value
  {
  }

  lemma ZoneRowsDistinct11To15()
    ensures forall i, j :: 11 <= i < 15 && i < j < |AllTimezones()| ==> AllTimezones()[i].value != AllTimezones()[j].value
  {
  }

  lemma ZoneRowsDistinct15To20()
    ensures forall i, j :: 15 <= i < 20 && i < j < |AllTimezones()| ==> AllTimezones()[i].value != AllTimezones()[j].value
  {
  }

  lemma ZoneRowsDistinct20To25()
    ensures forall i, j :: 20 <= i < 25 && i < j < |AllTimezones()| ==> AllTimezones()[i].value != AllTimezones()[j].value
  {
  }

  lemma ZoneRowsDistinct25To30()
    ensures forall i, j :: 25 <= i < 30 && i < j < |AllTimezones()| ==> AllTimezones()[i].value != AllTimezones()[j].value
  {
  }

  lemma ZoneRowsDistinct30To35()
    ensures forall i, j :: 30 <= i < 35 && i < j < |AllTimezones()| ==> AllTimezones()[i].value != AllTimezones()[j].value
  {
  }

  lemma ZoneRowsDistinct35To40()
    ensures forall i, j :: 35 <= i < 40 && i < j < |AllTimezones()| ==> AllTimezones()[i].value != AllTimezones()[j].value
  {
  }

  lemma ZoneRowsDistinct40To45()
    ensures forall i, j :: 40 <= i < 45 && i < j < |AllTimezones()| ==> AllTimezones()[i].value != AllTimezones()[j].value
  {
  }

  lemma ZoneRowsDistinct45To50()
    ensures forall i, j :: 45 <= i < 50 && i < j < |AllTimezones()| ==> AllTimezones()[i].value != AllTimezones()[j].value
  {
  }

  lemma ZoneRowsDistinct50To53()
    ensures forall i, j :: 50 <= i < 53 && i < j < |AllTimezones()| ==> AllTimezones()[i].value != AllTimezones()[j].value
  {
  }

  /** Labels are not unique: Paris and Berlin are both shown as CET, so a zone
      can only be identified by its value. */
  lemma TimezoneLabelsRepeat()
    ensures exists i, j :: 0 <= i < j < |AllTimezones()|
              && AllTimezones()[i].labelText == AllTimezones()[j].labelText
              && AllTimezones()[i].value != AllTimezones()[j].value
  {
    assert AllTimezones()[8].labelText == AllTimezones()[9].labelText;
  }

  /** `getTimezoneByValue`: the table entry for a zone identifier, or nothing
      when the identifier is not offered. */
  function TimezoneByValue(value: string): (r: Option<TimezoneOption>)
    ensures r.Some? ==> r.value.value == value && r.value in AllTimezones()
    ensures r.None? <==> forall i :: 0 <= i < |AllTimezones()| ==> AllTimezones()[i].value != value
  {
    Lookup.FindBy(AllTimezones(), TimezoneValue, value)
  }

  /** Looking up the value of the i-th entry finds exactly that entry. */
  lemma TimezoneByValueExact(i: nat)
    requires i < |AllTimezones()|
    ensures TimezoneByValue(AllTimezones()[i].value) == Some(AllTimezones()[i])
  {
    TimezoneValuesDistinct();
    Lookup.FindByUnique(AllTimezones(), TimezoneValue, i);
  }

  /** `getUserTimezone`: the zone the browser reports (`resolved`, `None` when
      asking for it throws), or "UTC". The reported zone is passed through
      unchecked, so it need not be one of the table's entries. */
  function UserTimezone(resolved: Option<string>): (r: string)
    ensures resolved.Some? ==> r == resolved.value
    ensures resolved.None? ==> TimezoneByValue(r) == Some(AllTimezones()[0])
  {
    if resolved.Some? then resolved.value
    else
      assert AllTimezones()[0].value == FallbackZone;
      FallbackZone
  }

  /** The browser may report a zone the table does not offer; looking it up
      then finds nothing. */
  lemma ReportedZoneMayBeUnlisted()
    ensures TimezoneByValue(UserTimezone(Some("America/Argentina/Cordoba"))).None?
  {
    assert forall i :: 0 <= i < TimezoneCount ==> TimezoneAt(i).value != "America/Argentina/Cordoba";
  }

  /** Every zone identifier in the table is non-empty. The rows are checked a
      few at a time, below. */
  lemma ZoneValuesNonEmpty()
    ensures forall i :: 0 <= i < TimezoneCount ==> TimezoneAt(i).value != ""
  {
    ZoneValuesNonEmpty0To20();
    ZoneValuesNonEmpty20To30();
    ZoneValuesNonEmpty30To40();
    ZoneValuesNonEmpty40To47();
    ZoneValuesNonEmpty47To53();
  }

  lemma ZoneValuesNonEmpty0To20()
    ensures forall i :: 0 <= i < 20 ==> TimezoneAt(i).value != ""
  {
  }

  lemma ZoneValuesNonEmpty20To30()
    ensures forall i :: 20 <= i < 30 ==> TimezoneAt(i).value != ""
  {
  }

  lemma ZoneValuesNonEmpty30To40()
    ensures forall i :: 30 <= i < 40 ==> TimezoneAt(i).value != ""
  {
  }

  lemma ZoneValuesNonEmpty40To47()
    ensures forall i :: 40 <= i < 47 ==> TimezoneAt(i).value != ""
  {
  }

  lemma ZoneValuesNonEmpty47To53()
    ensures forall i :: 47 <= i < 53 ==> TimezoneAt(i).value != ""
  {
  }
}
