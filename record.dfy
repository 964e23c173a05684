/**
 * The record `extract_business_info` builds for one business page
 * (scraper.py:94-228). The browser is replaced by a `Page`: one optional value
 * per lookup the function makes, `None` where that lookup (or the parse after
 * it) raises. Each field is written by its own `try`/`except`, so a failing
 * lookup only ever turns its own field(s) to `None`.
 */
module Business {
  import opened Wrappers
  import opened Text
  import opened Address
  import opened Redirect
  import opened BusinessHours

  /** The keys the record dict can hold, in the order they are written; `Country` is never written. */
  datatype Key =
    | Url | Name | Category | Claimed | Closed | Hours | Photos | ServicesOffered | Description
    | Reviews | Street | Unit | CityStatePostalCode | Website | PhoneNumber | Country

  /** The Python values the record holds. */
  datatype Value =
    | Null
    | Str(s: string)
    | Number(x: real)
    | Dict(entries: map<string, string>)
    | List(items: seq<Value>)

  type Record = map<Key, Value>

  /** `info.get(key)`: `None` for a key the dict lacks. */
  function Get(info: Record, k: Key): (v: Value)
    ensures k !in info ==> v == Null
    ensures k in info ==> v == info[k]
  {
    if k in info then info[k] else Null
  }

  /**
   * What the browser reports for one business page. Text fields hold the raw
   * `.text` of the element the lookup reaches; `reviews` holds the rating
   * after `float(...)`.
   */
  datatype Page = Page(
    heading: Option<string>,              // the `<h1>`
    categoryLink: Option<string>,         // the first `find_desc` link
    claimedText: Option<string>,          // the span after the first `aria-hidden` span
    closedText: Option<string>,           // the span after the "Closed" span
    hoursTable: Option<HoursTable>,       // the "Location & Hours" table with all its `<p>` cells
    photoSrcs: Option<seq<Option<string>>>, // `src` of every photo `<img>`
    services: Option<seq<string>>,        // link texts of the "Services Offered" section
    about: Option<string>,                // the first `<p>` of "About the Business"
    rating: Option<real>,                 // the span before the `#reviews` link, as a float
    address: Option<seq<string>>,         // texts of the `<p>` elements of `<address>`
    hrefs: seq<Option<string>>,           // `href` of every `<a>`, in document order
    phone: Option<string>)                // the `<p>` after the "Phone number" `<p>`

  /** `el.text.strip()`, or `None` when the lookup raised. */
  function StrippedOrNull(o: Option<string>): (v: Value)
    ensures v.Null? <==> o.None?
    ensures o.Some? ==> v == Str(Strip(o.value))
  {
    match o
    case None => Null
    case Some(t) => Str(Strip(t))
  }

  /** A Python `str | None` as stored. */
  function StrOrNull(o: Option<string>): (v: Value)
    ensures v.Null? <==> o.None?
    ensures o.Some? ==> v == Str(o.value)
  {
    match o
    case None => Null
    case Some(t) => Str(t)
  }

  function PhotosValue(srcs: Option<seq<Option<string>>>): (v: Value)
    ensures v.Null? <==> srcs.None?
    ensures srcs.Some? ==> v.List? && |v.items| == |srcs.value|
    ensures srcs.Some? ==> forall i | 0 <= i < |srcs.value| :: v.items[i] == StrOrNull(srcs.value[i])
  {
    match srcs
    case None => Null
    case Some(ss) => List(seq(|ss|, i requires 0 <= i < |ss| => StrOrNull(ss[i])))
  }

  function ServicesValue(services: Option<seq<string>>): (v: Value)
    ensures v.Null? <==> services.None?
    ensures services.Some? ==> v.List? && |v.items| == |services.value|
    ensures services.Some? ==> forall i | 0 <= i < |services.value| :: v.items[i] == Str(Strip(services.value[i]))
  {
    match services
    case None => Null
    case Some(ts) => List(seq(|ts|, i requires 0 <= i < |ts| => Str(Strip(ts[i]))))
  }

  function HoursValue(table: Option<HoursTable>): (v: Value)
    ensures v.Null? <==> table.None?
    ensures table.Some? ==> v == Dict(PairHours(StripAll(table.value.dayCells), HourTexts(table.value.rowCells)))
  {
    match table
    case None => Null
    case Some(t) => Dict(HoursMap(t))
  }

  function RatingValue(rating: Option<real>): (v: Value)
    ensures v.Null? <==> rating.None?
    ensures rating.Some? ==> v == Number(rating.value)
  {
    match rating
    case None => Null
    case Some(x) => Number(x)
  }

  /** Every key the function writes: all but `Country`. */
  const StoredKeys: set<Key> := {
    Url, Name, Category, Claimed, Closed, Hours, Photos, ServicesOffered, Description,
    Reviews, Street, Unit, CityStatePostalCode, Website, PhoneNumber}

  /** The value each `try` block stores, before they are put into the dict. */
  datatype Fields = Fields(
    url: Value, name: Value, category: Value, claimed: Value, closed: Value, hours: Value,
    photos: Value, servicesOffered: Value, description: Value, reviews: Value, street: Value,
    unit: Value, cityStatePostalCode: Value, website: Value, phoneNumber: Value)

  /** What each field's own lookups give. */
  function FieldsOf(url: string, page: Page): Fields
  {
    var address := SplitAddress(page.address);
    Fields(
      Str(url),
      StrippedOrNull(page.heading),
      StrippedOrNull(page.categoryLink),
      StrippedOrNull(page.claimedText),
      StrippedOrNull(page.closedText),
      HoursValue(page.hoursTable),
      PhotosValue(page.photoSrcs),
      ServicesValue(page.services),
      StrippedOrNull(page.about),
      RatingValue(page.rating),
      StrOrNull(address.street),
      StrOrNull(address.unit),
      StrOrNull(address.cityStatePostal),
      StrOrNull(Redirect.Website(page.hrefs)),
      StrippedOrNull(page.phone))
  }

  /** The dict with one key per field. */
  function ToRecord(f: Fields): Record
  {
    map[
      Url := f.url, Name := f.name, Category := f.category, Claimed := f.claimed,
      Closed := f.closed, Hours := f.hours, Photos := f.photos,
      ServicesOffered := f.servicesOffered, Description := f.description,
      Reviews := f.reviews, Street := f.street, Unit := f.unit,
      CityStatePostalCode := f.cityStatePostalCode, Website := f.website,
      PhoneNumber := f.phoneNumber]
  }

  /** The record of a loaded page: `url` plus one entry per `try` block. */
  function RecordOf(url: string, page: Page): Record
  {
    ToRecord(FieldsOf(url, page))
  }

  /**
   * `extract_business_info` after the page has loaded: starts from
   * `{'url': url}` and writes the other fields one `try` block at a time.
   */
  method ExtractBusinessInfo(url: string, page: Page) returns (info: Record)
    ensures info == RecordOf(url, page)
  {
    info := map[Url := Str(url)];
    info := info[Name := StrippedOrNull(page.heading)];
    info := info[Category := StrippedOrNull(page.categoryLink)];
    info := info[Claimed := StrippedOrNull(page.claimedText)];
    info := info[Closed := StrippedOrNull(page.closedText)];
    match page.hoursTable {
      case None =>
        info := info[Hours := Null];
      case Some(t) =>
        var days := StripAll(t.dayCells);
        var hours := CollectHours(t.rowCells);
        info := info[Hours := Dict(PairHours(days, hours))];
    }
    info := info[Photos := PhotosValue(page.photoSrcs)];
    info := info[ServicesOffered := ServicesValue(page.services)];
    info := info[Description := StrippedOrNull(page.about)];
    info := info[Reviews := RatingValue(page.rating)];
    var address := SplitAddress(page.address);
    info := info[Street := StrOrNull(address.street)];
    info := info[Unit := StrOrNull(address.unit)];
    info := info[CityStatePostalCode := StrOrNull(address.cityStatePostal)];
    info := info[Website := StrOrNull(Redirect.Website(page.hrefs))];
    info := info[PhoneNumber := StrippedOrNull(page.phone)];
  }

  /** The dict holds exactly the written keys: never a `country`. */
  lemma RecordKeys(f: Fields)
    ensures ToRecord(f).Keys == StoredKeys
    ensures Country !in ToRecord(f) && Get(ToRecord(f), Country) == Null
  {
    assert ToRecord(f).Keys == StoredKeys;
  }

  /** The page's `url` is always stored, whatever else fails. */
  lemma RecordHasUrl(url: string, page: Page)
    ensures Url in RecordOf(url, page) && RecordOf(url, page)[Url] == Str(url)
  {
    var f := FieldsOf(url, page);
    assert f.url == Str(url);
    assert Url in ToRecord(f) && ToRecord(f)[Url] == f.url;
  }

  /**
   * Field isolation: when one lookup fails, only the field it feeds becomes
   * `None`; every other field is what it would have been.
   */
  lemma FailedLookupNullsOnlyItsField(url: string, page: Page)
    ensures FieldsOf(url, page.(heading := None)) == FieldsOf(url, page).(name := Null)
    ensures FieldsOf(url, page.(categoryLink := None)) == FieldsOf(url, page).(category := Null)
    ensures FieldsOf(url, page.(claimedText := None)) == FieldsOf(url, page).(claimed := Null)
    ensures FieldsOf(url, page.(closedText := None)) == FieldsOf(url, page).(closed := Null)
    ensures FieldsOf(url, page.(hoursTable := None)) == FieldsOf(url, page).(hours := Null)
    ensures FieldsOf(url, page.(photoSrcs := None)) == FieldsOf(url, page).(photos := Null)
    ensures FieldsOf(url, page.(services := None)) == FieldsOf(url, page).(servicesOffered := Null)
    ensures FieldsOf(url, page.(about := None)) == FieldsOf(url, page).(description := Null)
    ensures FieldsOf(url, page.(rating := None)) == FieldsOf(url, page).(reviews := Null)
    ensures FieldsOf(url, page.(phone := None)) == FieldsOf(url, page).(phoneNumber := Null)
    ensures FieldsOf(url, page.(address := None)) == FieldsOf(url, page).(street := Null, unit := Null, cityStatePostalCode := Null)
  {
  }

  /** Without a redirect link only the website is `None`; the other fields are unchanged. */
  lemma NoRedirectNullsOnlyWebsite(url: string, page: Page, hrefs: seq<Option<string>>)
    requires forall i | 0 <= i < |hrefs| :: !IsRedirect(hrefs[i])
    ensures FieldsOf(url, page.(hrefs := hrefs)) == FieldsOf(url, page).(website := Null)
  {
  }

  /** A text field is `None` exactly when its own lookup failed. */
  lemma FieldNullWhenLookupFails(url: string, page: Page)
    ensures FieldsOf(url, page).name.Null? <==> page.heading.None?
    ensures FieldsOf(url, page).category.Null? <==> page.categoryLink.None?
    ensures FieldsOf(url, page).hours.Null? <==> page.hoursTable.None?
    ensures FieldsOf(url, page).reviews.Null? <==> page.rating.None?
    ensures FieldsOf(url, page).phoneNumber.Null? <==> page.phone.None?
  {
  }

  /**
   * The address fields are `None` together (a unit only ever comes with a
   * street), and the website is `None` exactly when no href is a redirect link.
   */
  lemma AddressAndWebsiteNull(url: string, page: Page)
    ensures FieldsOf(url, page).street.Null? <==> FieldsOf(url, page).cityStatePostalCode.Null?
    ensures FieldsOf(url, page).street.Null? ==> FieldsOf(url, page).unit.Null?
    ensures page.address.None? ==> FieldsOf(url, page).street.Null?
    ensures FieldsOf(url, page).website.Null? <==> forall i | 0 <= i < |page.hrefs| :: !IsRedirect(page.hrefs[i])
  {
    var a := SplitAddress(page.address);
    assert a.street.Some? <==> a.cityStatePostal.Some?;
  }
}
