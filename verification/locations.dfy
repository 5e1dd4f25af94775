/** The `location` resolver of a campaign contact, a three-tier cascade (stored descriptor,
    static zip table, zip-code loader), and the `Location` and `Timezone` field resolvers
    that read its answer. */
module Locations {
  import opened Wrappers
  import opened Strings
  import opened Contacts

  /** An entry of the static zip table; the fields are positions 0 to 3 of the array
      `zipToTimeZone` answers with. */
  datatype ZipEntry = ZipEntry(zipLow: int, zipHigh: int, offset: int, dst: int)

  /** A resolved location. `timezoneOffset` is `None` when the offset is missing or `NaN`;
      `city` and `state` are `None` when the object has no such property. */
  datatype Location = Location(timezoneOffset: Option<int>, hasDst: bool, city: Option<string>, state: Option<string>)

  /** The empty object `{}` read as a location. */
  const EmptyLocation := Location(None, false, None, None)

  /** The zip code without its `-XXXX` extension: the text before the first `-`. */
  function MainZip(zip: string): (p: string)
    ensures '-' !in p && p <= zip
    ensures p == zip || zip[|p|] == '-'
  {
    FirstPiece(zip, '-');
    Split(zip, '-')[0]
  }

  /** The location stored on the contact as `"<offset>_<dst>"`: the offset is `parseInt` of
      the text before the first `_`, and daylight saving is observed exactly when the second
      piece is `"1"`. The cached city is attached, with the state when it is set, only when
      the city is set. */
  function StoredLocation(c: Contact): (loc: Location)
    requires c.timezoneOffset.Some?
    ensures var parts := Split(c.timezoneOffset.value, '_');
      && loc.timezoneOffset == ParseInt(parts[0])
      && (loc.hasDst <==> |parts| > 1 && parts[1] == "1")
    ensures loc.city.Some? <==> Truthy(c.city)
    ensures loc.city.Some? ==> loc.city == c.city
    ensures loc.state.Some? <==> Truthy(c.city) && Truthy(c.state)
    ensures loc.state.Some? ==> loc.state == c.state
  {
    var parts := Split(c.timezoneOffset.value, '_');
    var offset := ParseInt(parts[0]);
    var hasDst := |parts| > 1 && parts[1] == "1";
    if Truthy(c.city) then
      Location(offset, hasDst, c.city, if Truthy(c.state) then c.state else None)
    else
      Location(offset, hasDst, None, None)
  }

  /** `location`: `zipTable` is `zipToTimeZone` and `zipCodes` the per-request zip-code loader.
      A non-empty stored descriptor decides the answer without any lookup. Otherwise the zip
      table is consulted with the zip's main part; on a hit its offset and daylight-saving
      flag (position 3 equal to 1) are the answer, and only on a miss is the loader asked,
      with the same key, its answer returned as it is. */
  function ResolveLocation(c: Contact, zipTable: string -> Option<ZipEntry>, zipCodes: string -> Option<Location>)
    : (r: Traced<Option<Location>>)
    ensures Truthy(c.timezoneOffset) ==> r.lookups == [] && r.value == Some(StoredLocation(c))
    ensures !Truthy(c.timezoneOffset) ==>
      && |r.lookups| >= 1
      && r.lookups[0] == ZipTableLookup(MainZip(c.zip))
      && (ZipCodeLoad(MainZip(c.zip)) in r.lookups <==> zipTable(MainZip(c.zip)).None?)
      && forall k :: 0 <= k < |r.lookups| ==>
           (r.lookups[k].ZipTableLookup? || r.lookups[k].ZipCodeLoad?) && r.lookups[k].zipPrefix == MainZip(c.zip)
    ensures !Truthy(c.timezoneOffset) && zipTable(MainZip(c.zip)).Some? ==>
      var e := zipTable(MainZip(c.zip)).value;
      && r.lookups == [ZipTableLookup(MainZip(c.zip))]
      && r.value == Some(Location(Some(e.offset), e.dst == 1, None, None))
    ensures !Truthy(c.timezoneOffset) && zipTable(MainZip(c.zip)).None? ==>
      r.value == zipCodes(MainZip(c.zip))
  {
    if Truthy(c.timezoneOffset) then
      Traced(Some(StoredLocation(c)), [])
    else
      var mainZip := MainZip(c.zip);
      match zipTable(mainZip)
      case Some(e) =>
        Traced(Some(Location(Some(e.offset), e.dst == 1, None, None)), [ZipTableLookup(mainZip)])
      case None =>
        Traced(zipCodes(mainZip), [ZipTableLookup(mainZip), ZipCodeLoad(mainZip)])
  }

  /** A descriptor written as an integer, `_`, and a flag decides the location on its own:
      the offset reads back as that integer and daylight saving follows the flag's first piece. */
  lemma StoredDescriptorWins(c: Contact, offset: int, flag: string,
                             zipTable: string -> Option<ZipEntry>, zipCodes: string -> Option<Location>)
    requires c.timezoneOffset == Some(IntToString(offset) + "_" + flag)
    ensures var r := ResolveLocation(c, zipTable, zipCodes);
      && r.lookups == []
      && r.value.Some?
      && r.value.value.timezoneOffset == Some(offset)
      && (r.value.value.hasDst <==> Split(flag, '_')[0] == "1")
  {
    var rendered := IntToString(offset);
    if '_' in rendered {
      RenderedCharacters(offset, '_');
    }
    SplitCons(rendered, '_', flag);
    assert rendered + "_" + flag == rendered + ['_'] + flag;
    ParseIntRender(offset, "");
    assert rendered + "" == rendered;
  }

  /** Without a stored descriptor, every lookup is keyed by the zip code's text before its
      `-` extension. */
  lemma ZipExtensionStripped(c: Contact, main: string, extension: string,
                             zipTable: string -> Option<ZipEntry>, zipCodes: string -> Option<Location>)
    requires !Truthy(c.timezoneOffset)
    requires '-' !in main
    requires c.zip == main + "-" + extension
    ensures var r := ResolveLocation(c, zipTable, zipCodes);
      && r.lookups[0] == ZipTableLookup(main)
      && forall k :: 0 <= k < |r.lookups| ==>
           (r.lookups[k].ZipTableLookup? || r.lookups[k].ZipCodeLoad?) && r.lookups[k].zipPrefix == main
  {
    assert c.zip == main + ['-'] + extension;
    SplitCons(main, '-', extension);
  }

  /** `"-5_1"` is five hours behind UTC with daylight saving. */
  lemma DescriptorExample(c: Contact, zipTable: string -> Option<ZipEntry>, zipCodes: string -> Option<Location>)
    requires c.timezoneOffset == Some("-5_1")
    ensures var r := ResolveLocation(c, zipTable, zipCodes);
      r.lookups == [] && r.value.Some? && r.value.value.timezoneOffset == Some(-5) && r.value.value.hasDst
  {
    assert NatToDigits(5) == "5";
    assert IntToString(-5) + "_" + "1" == "-5_1";
    assert Split("1", '_') == ["1"];
    StoredDescriptorWins(c, -5, "1", zipTable, zipCodes);
  }

  /** `"10001-1234"` is looked up as `"10001"`. */
  lemma ZipExample(c: Contact, zipTable: string -> Option<ZipEntry>, zipCodes: string -> Option<Location>)
    requires !Truthy(c.timezoneOffset) && c.zip == "10001-1234"
    ensures ResolveLocation(c, zipTable, zipCodes).lookups[0] == ZipTableLookup("10001")
  {
    ZipExtensionStripped(c, "10001", "1234", zipTable, zipCodes);
  }

  // The `Location` and `Timezone` field resolvers.

  /** `Location.timezone`: the location itself, or `{}` when there is none. */
  function TimezoneOf(loc: Option<Location>): (tz: Location)
    ensures loc.Some? ==> tz == loc.value
    ensures loc.None? ==> tz.timezoneOffset.None? && !tz.hasDst
  {
    loc.GetOr(EmptyLocation)
  }

  /** `Location.city`: the city, or `""` when it is missing or empty. */
  function CityOf(loc: Location): (s: string)
    ensures s == "" <==> !Truthy(loc.city)
    ensures s != "" ==> loc.city == Some(s)
  {
    if Truthy(loc.city) then loc.city.value else ""
  }

  /** `Location.state`: the state, or `""` when it is missing or empty. */
  function StateOf(loc: Location): (s: string)
    ensures s == "" <==> !Truthy(loc.state)
    ensures s != "" ==> loc.state == Some(s)
  {
    if Truthy(loc.state) then loc.state.value else ""
  }

  /** `Timezone.offset`: `timezone_offset || null`, so an offset of zero reads as null too. */
  function OffsetOf(tz: Location): (o: Option<int>)
    ensures o.None? <==> tz.timezoneOffset.None? || tz.timezoneOffset == Some(0)
    ensures o.Some? ==> o == tz.timezoneOffset && o.value != 0
  {
    if tz.timezoneOffset.Some? && tz.timezoneOffset.value != 0 then tz.timezoneOffset else None
  }

  /** `Timezone.hasDST`: `has_dst || null`, so the answer is true or null, never false. */
  function HasDstOf(tz: Location): (d: Option<bool>)
    ensures d != Some(false)
    ensures d == Some(true) <==> tz.hasDst
  {
    if tz.hasDst then Some(true) else None
  }

  /** A contact stored at UTC without daylight saving (`"0_0"`) reports null for both the
      offset and the daylight-saving flag. */
  lemma UtcReadsAsNull(c: Contact, zipTable: string -> Option<ZipEntry>, zipCodes: string -> Option<Location>)
    requires c.timezoneOffset == Some("0_0")
    ensures var tz := TimezoneOf(ResolveLocation(c, zipTable, zipCodes).value);
      OffsetOf(tz) == None && HasDstOf(tz) == None
  {
    assert NatToDigits(0) == "0";
    assert IntToString(0) + "_" + "0" == "0_0";
    assert Split("0", '_') == ["0"];
    StoredDescriptorWins(c, 0, "0", zipTable, zipCodes);
  }
}
