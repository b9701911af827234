/**
 * The colorization history: `HistoryItem` records with their hand-written
 * `Codable` conformance, and `HistoryManager`, which keeps the items newest
 * first, at most 100 of them, and rewrites the whole encoded list into
 * `UserDefaults` under "colorization_history" after every change.
 *
 * `JSONEncoder`/`JSONDecoder` are modelled one level up from the bytes: an
 * item is a keyed container (a map from coding key to value), a list is a
 * JSON array of containers, and stored data that is not a JSON array at all is
 * `Unparsable`.
 */
module HistoryModel {

  import opened Foundation

  // ---------------------------------------------------------------------------
  // Items
  // ---------------------------------------------------------------------------

  /** What kind of media a history entry records. */
  datatype MediaType = Image | Video

  /** The raw value a `MediaType` is encoded as. */
  function RawValue(m: MediaType): (r: string)
    ensures r == "Image" || r == "Video"
    ensures r == "Image" <==> m == Image
  {
    match m
    case Image => "Image"
    case Video => "Video"
  }

  /** `MediaType(rawValue:)`. */
  function MediaTypeFromRawValue(s: string): (r: Option<MediaType>)
    ensures r.Some? <==> s == "Image" || s == "Video"
    ensures r.Some? ==> RawValue(r.value) == s
  {
    if s == "Image" then Some(Image) else if s == "Video" then Some(Video) else None
  }

  datatype HistoryItem = HistoryItem(
    id: Uuid,
    date: Date,
    mediaType: MediaType,
    thumbnailData: Option<seq<byte>>,
    fileURL: Option<Url>)

  // ---------------------------------------------------------------------------
  // Codable
  // ---------------------------------------------------------------------------

  /** A value stored in a keyed container. */
  datatype Value =
    | UuidValue(uuid: Uuid)
    | DateValue(date: Date)
    | StringValue(text: string)
    | DataValue(bytes: seq<byte>)
    | Null

  type Container = map<string, Value>

  datatype DecodingError =
    | KeyNotFound(key: string)
    | ValueNotFound(key: string)
    | TypeMismatch(key: string)
    | DataCorrupted(key: string)
    | NotJsonArray

  const IdKey: string := "id"
  const DateKey: string := "date"
  const MediaTypeKey: string := "mediaType"
  const ThumbnailDataKey: string := "thumbnailData"
  const FileURLStringKey: string := "fileURLString"

  /** `encode(to:)`. */
  function EncodeItem(item: HistoryItem): (c: Container)
    ensures c.Keys <= {IdKey, DateKey, MediaTypeKey, ThumbnailDataKey, FileURLStringKey}
    ensures IdKey in c && DateKey in c && MediaTypeKey in c
    ensures ThumbnailDataKey in c <==> item.thumbnailData.Some?
    ensures FileURLStringKey in c <==> item.fileURL.Some?
  {
    var required := map[
      IdKey := UuidValue(item.id),
      DateKey := DateValue(item.date),
      MediaTypeKey := StringValue(RawValue(item.mediaType))];
    var withThumbnail :=
      if item.thumbnailData.Some? then required[ThumbnailDataKey := DataValue(item.thumbnailData.value)]
      else required;
    if item.fileURL.Some? then withThumbnail[FileURLStringKey := StringValue(item.fileURL.value)]
    else withThumbnail
  }

  /** `container.decode(UUID.self, forKey:)`. */
  function DecodeUuid(c: Container, key: string): (r: Result<Uuid, DecodingError>)
    ensures r.Success? <==> key in c && c[key].UuidValue?
    ensures r.Success? ==> r.value == c[key].uuid
  {
    if key !in c then Failure(KeyNotFound(key))
    else match c[key]
      case UuidValue(u) => Success(u)
      case Null => Failure(ValueNotFound(key))
      case _ => Failure(TypeMismatch(key))
  }

  /** `container.decode(Date.self, forKey:)`. */
  function DecodeDate(c: Container, key: string): (r: Result<Date, DecodingError>)
    ensures r.Success? <==> key in c && c[key].DateValue?
    ensures r.Success? ==> r.value == c[key].date
  {
    if key !in c then Failure(KeyNotFound(key))
    else match c[key]
      case DateValue(d) => Success(d)
      case Null => Failure(ValueNotFound(key))
      case _ => Failure(TypeMismatch(key))
  }

  /** `container.decode(MediaType.self, forKey:)`: a string that must be a raw value. */
  function DecodeMediaType(c: Container, key: string): (r: Result<MediaType, DecodingError>)
    ensures r.Success? <==> key in c && c[key].StringValue? && MediaTypeFromRawValue(c[key].text).Some?
    ensures r.Success? ==> Some(r.value) == MediaTypeFromRawValue(c[key].text) && RawValue(r.value) == c[key].text
  {
    if key !in c then Failure(KeyNotFound(key))
    else match c[key]
      case StringValue(s) =>
        (match MediaTypeFromRawValue(s)
         case Some(m) => Success(m)
         case None => Failure(DataCorrupted(key)))
      case Null => Failure(ValueNotFound(key))
      case _ => Failure(TypeMismatch(key))
  }

  /** `container.decodeIfPresent(Data.self, forKey:)`: absent or null is `nil`. */
  function DecodeDataIfPresent(c: Container, key: string): (r: Result<Option<seq<byte>>, DecodingError>)
    ensures r.Success? <==> key !in c || c[key].DataValue? || c[key].Null?
    ensures key !in c || c[key].Null? ==> r == Success(None)
    ensures key in c && c[key].DataValue? ==> r == Success(Some(c[key].bytes))
  {
    if key !in c then Success(None)
    else match c[key]
      case DataValue(bs) => Success(Some(bs))
      case Null => Success(None)
      case _ => Failure(TypeMismatch(key))
  }

  /** `container.decodeIfPresent(String.self, forKey:)`. */
  function DecodeStringIfPresent(c: Container, key: string): (r: Result<Option<string>, DecodingError>)
    ensures r.Success? <==> key !in c || c[key].StringValue? || c[key].Null?
    ensures key !in c || c[key].Null? ==> r == Success(None)
    ensures key in c && c[key].StringValue? ==> r == Success(Some(c[key].text))
  {
    if key !in c then Success(None)
    else match c[key]
      case StringValue(s) => Success(Some(s))
      case Null => Success(None)
      case _ => Failure(TypeMismatch(key))
  }

  /**
   * `init(from:)`: id, date and media type are required; the thumbnail and the
   * URL string are optional, and a URL string that does not parse gives a
   * `nil` URL rather than an error.
   */
  function DecodeItem(c: Container): (r: Result<HistoryItem, DecodingError>)
    ensures r.Success? <==>
              && DecodeUuid(c, IdKey).Success? && DecodeDate(c, DateKey).Success?
              && DecodeMediaType(c, MediaTypeKey).Success?
              && DecodeDataIfPresent(c, ThumbnailDataKey).Success?
              && DecodeStringIfPresent(c, FileURLStringKey).Success?
    ensures r.Success? ==> DecodeUuid(c, IdKey) == Success(r.value.id)
    ensures r.Success? ==> DecodeDate(c, DateKey) == Success(r.value.date)
    ensures r.Success? ==> DecodeMediaType(c, MediaTypeKey) == Success(r.value.mediaType)
    ensures r.Success? ==> DecodeDataIfPresent(c, ThumbnailDataKey) == Success(r.value.thumbnailData)
    ensures r.Success? && (FileURLStringKey !in c || c[FileURLStringKey].Null?) ==> r.value.fileURL.None?
    ensures r.Success? && FileURLStringKey in c && c[FileURLStringKey].StringValue? ==>
              r.value.fileURL == ParseUrl(c[FileURLStringKey].text)
    ensures IdKey !in c ==> r == Failure(KeyNotFound(IdKey))
  {
    match DecodeUuid(c, IdKey)
    case Failure(e) => Failure(e)
    case Success(id) =>
      match DecodeDate(c, DateKey)
      case Failure(e) => Failure(e)
      case Success(date) =>
        match DecodeMediaType(c, MediaTypeKey)
        case Failure(e) => Failure(e)
        case Success(mediaType) =>
          match DecodeDataIfPresent(c, ThumbnailDataKey)
          case Failure(e) => Failure(e)
          case Success(thumbnailData) =>
            match DecodeStringIfPresent(c, FileURLStringKey)
            case Failure(e) => Failure(e)
            case Success(urlString) =>
              var fileURL := if urlString.Some? then ParseUrl(urlString.value) else None;
              Success(HistoryItem(id, date, mediaType, thumbnailData, fileURL))
  }

  /** Decoding an encoded item gives the item back, field for field. */
  lemma ItemRoundTrip(item: HistoryItem)
    ensures DecodeItem(EncodeItem(item)) == Success(item)
  {
    var c := EncodeItem(item);
    assert DecodeUuid(c, IdKey) == Success(item.id);
    assert DecodeDate(c, DateKey) == Success(item.date);
    assert MediaTypeFromRawValue(RawValue(item.mediaType)) == Some(item.mediaType);
    assert DecodeMediaType(c, MediaTypeKey) == Success(item.mediaType);
    assert DecodeDataIfPresent(c, ThumbnailDataKey) == Success(item.thumbnailData);
    if item.fileURL.Some? {
      assert DecodeStringIfPresent(c, FileURLStringKey) == Success(Some(item.fileURL.value));
    } else {
      assert DecodeStringIfPresent(c, FileURLStringKey) == Success(None);
    }
  }

  // ---------------------------------------------------------------------------
  // The stored list
  // ---------------------------------------------------------------------------

  /** What `UserDefaults` holds under a key: a JSON array of containers, or anything else. */
  datatype Blob = JsonArray(elements: seq<Container>) | Unparsable(bytes: seq<byte>)

  /** `JSONEncoder().encode(historyItems)`. */
  function EncodeHistory(items: seq<HistoryItem>): (b: Blob)
    ensures b.JsonArray? && |b.elements| == |items|
    ensures DecodeHistory(b) == Success(items)
  {
    if items == [] then JsonArray([])
    else
      var rest := EncodeHistory(items[1..]).elements;
      var cs := [EncodeItem(items[0])] + rest;
      ItemRoundTrip(items[0]);
      assert cs[1..] == rest;
      assert [items[0]] + items[1..] == items;
      JsonArray(cs)
  }

  /** Decodes the elements in order; the first element that fails fails the whole array. */
  function DecodeElements(cs: seq<Container>): (r: Result<seq<HistoryItem>, DecodingError>)
    ensures r.Success? <==> forall i :: 0 <= i < |cs| ==> DecodeItem(cs[i]).Success?
    ensures r.Success? ==> |r.value| == |cs|
    ensures r.Success? ==> forall i :: 0 <= i < |cs| ==> DecodeItem(cs[i]) == Success(r.value[i])
  {
    if cs == [] then Success([])
    else
      match DecodeItem(cs[0])
      case Failure(e) => Failure(e)
      case Success(item) =>
        match DecodeElements(cs[1..])
        case Failure(e) => Failure(e)
        case Success(rest) => Success([item] + rest)
  }

  /** `JSONDecoder().decode([HistoryItem].self, from:)`. */
  function DecodeHistory(b: Blob): (r: Result<seq<HistoryItem>, DecodingError>)
    ensures b.Unparsable? ==> r == Failure(NotJsonArray)
  {
    match b
    case Unparsable(_) => Failure(NotJsonArray)
    case JsonArray(cs) => DecodeElements(cs)
  }

  // ---------------------------------------------------------------------------
  // Removing and grouping
  // ---------------------------------------------------------------------------

  /** `removeAll { $0.id == id }`. */
  function WithoutId(items: seq<HistoryItem>, id: Uuid): (r: seq<HistoryItem>)
    ensures |r| <= |items|
    ensures forall x :: x in r <==> x in items && x.id != id
  {
    if items == [] then []
    else (if items[0].id == id then [] else [items[0]]) + WithoutId(items[1..], id)
  }

  /** Removal works piecewise, so the entries that stay keep their relative order. */
  lemma {:induction false} WithoutIdAppend(xs: seq<HistoryItem>, ys: seq<HistoryItem>, id: Uuid)
    ensures WithoutId(xs + ys, id) == WithoutId(xs, id) + WithoutId(ys, id)
  {
    if xs != [] {
      assert (xs + ys)[0] == xs[0];
      assert (xs + ys)[1..] == xs[1..] + ys;
      WithoutIdAppend(xs[1..], ys, id);
    } else {
      assert xs + ys == ys;
    }
  }

  /** Every copy of an entry with that id goes; every other entry stays as often as it was there. */
  lemma {:induction false} WithoutIdCounts(items: seq<HistoryItem>, id: Uuid, x: HistoryItem)
    ensures multiset(WithoutId(items, id))[x] == if x.id == id then 0 else multiset(items)[x]
  {
    if items != [] {
      var head := if items[0].id == id then [] else [items[0]];
      var rest := WithoutId(items[1..], id);
      WithoutIdCounts(items[1..], id, x);
      assert WithoutId(items, id) == head + rest;
      assert multiset(head + rest)[x] == multiset(head)[x] + multiset(rest)[x];
      assert items == [items[0]] + items[1..];
      assert multiset(items)[x] == multiset([items[0]])[x] + multiset(items[1..])[x];
    }
  }

  /** Removing an id no entry has changes nothing. */
  lemma {:induction false} WithoutAbsentId(items: seq<HistoryItem>, id: Uuid)
    requires forall i :: 0 <= i < |items| ==> items[i].id != id
    ensures WithoutId(items, id) == items
  {
    if items != [] {
      WithoutAbsentId(items[1..], id);
    }
  }

  /** The entries of `items` whose day label is `day`, in list order. */
  function ItemsOnDay(items: seq<HistoryItem>, dayLabel: Date -> string, day: string): (r: seq<HistoryItem>)
    ensures forall x :: x in r <==> x in items && dayLabel(x.date) == day
  {
    if items == [] then []
    else
      var last := items[|items| - 1];
      ItemsOnDay(items[..|items| - 1], dayLabel, day) + (if dayLabel(last.date) == day then [last] else [])
  }

  /** Each entry is in the group of its own day, as often as in the list, and in no other group. */
  lemma {:induction false} ItemsOnDayCounts(items: seq<HistoryItem>, dayLabel: Date -> string, day: string, x: HistoryItem)
    ensures multiset(ItemsOnDay(items, dayLabel, day))[x] ==
            if dayLabel(x.date) == day then multiset(items)[x] else 0
  {
    if items != [] {
      var init, last := items[..|items| - 1], items[|items| - 1];
      ItemsOnDayCounts(init, dayLabel, day, x);
      assert items == init + [last];
    }
  }

  /**
   * `Dictionary(grouping: items) { $0.formattedDay }`: one key per day label
   * that occurs, each entry appended to the group of its day in list order.
   * `dayLabel` stands for the locale-dependent `formattedDay`.
   */
  function GroupByDay(items: seq<HistoryItem>, dayLabel: Date -> string): (groups: map<string, seq<HistoryItem>>)
    ensures groups.Keys == set i | 0 <= i < |items| :: dayLabel(items[i].date)
    ensures forall day :: day in groups ==> groups[day] != []
  {
    if items == [] then map[]
    else
      var init, last := items[..|items| - 1], items[|items| - 1];
      var groups := GroupByDay(init, dayLabel);
      var day := dayLabel(last.date);
      assert forall i :: 0 <= i < |init| ==> items[i] == init[i];
      groups[day := (if day in groups then groups[day] else []) + [last]]
  }

  /** Each group is exactly the entries of its day, in the order of the list. */
  lemma {:induction false} GroupsAreDays(items: seq<HistoryItem>, dayLabel: Date -> string, day: string)
    ensures var groups := GroupByDay(items, dayLabel);
            day in groups ==> groups[day] == ItemsOnDay(items, dayLabel, day)
  {
    if items != [] {
      var init, last := items[..|items| - 1], items[|items| - 1];
      GroupsAreDays(init, dayLabel, day);
      var earlier := ItemsOnDay(init, dayLabel, day);
      if earlier != [] {
        assert earlier[0] in init && dayLabel(earlier[0].date) == day;
      }
    }
  }

  // ---------------------------------------------------------------------------
  // Persistence and the manager
  // ---------------------------------------------------------------------------

  /** `UserDefaults.standard`: data stored under string keys. */
  class KeyValueStore {
    var entries: map<string, Blob>

    constructor ()
      ensures entries == map[]
    {
      entries := map[];
    }

    /** `set(_:forKey:)`. */
    method Set(value: Blob, key: string)
      modifies this
      ensures entries == old(entries)[key := value]
    {
      entries := entries[key := value];
    }
  }

  const HistoryKey: string := "colorization_history"
  const MaxHistoryItems: nat := 100

  function Min(a: int, b: int): int {
    if a < b then a else b
  }

  class HistoryManager {
    var historyItems: seq<HistoryItem>
    const defaults: KeyValueStore

    /** The stored data decodes to the current list: a reload would change nothing. */
    ghost predicate Persisted()
      reads this, defaults
    {
      HistoryKey in defaults.entries && DecodeHistory(defaults.entries[HistoryKey]) == Success(historyItems)
    }

    /** `init()`: starts empty and loads what is stored. */
    constructor (defaults: KeyValueStore)
      ensures this.defaults == defaults && defaults.entries == old(defaults.entries)
      ensures HistoryKey !in defaults.entries ==> historyItems == []
      ensures HistoryKey in defaults.entries ==>
                var decoded := DecodeHistory(defaults.entries[HistoryKey]);
                historyItems == if decoded.Success? then decoded.value else []
    {
      this.defaults := defaults;
      historyItems := [];
      new;
      LoadHistory();
    }

    /**
     * `loadHistory`: with nothing stored the list is left as it is; stored
     * data replaces the list when it decodes and empties it when it does not.
     */
    method LoadHistory()
      modifies this
      ensures defaults.entries == old(defaults.entries)
      ensures HistoryKey !in defaults.entries ==> historyItems == old(historyItems)
      ensures HistoryKey in defaults.entries ==>
                var decoded := DecodeHistory(defaults.entries[HistoryKey]);
                && (decoded.Success? ==> historyItems == decoded.value)
                && (decoded.Failure? ==> historyItems == [])
    {
      if HistoryKey in defaults.entries {
        var decoded := DecodeHistory(defaults.entries[HistoryKey]);
        match decoded {
          case Success(items) => historyItems := items;
          case Failure(_) => historyItems := [];
        }
      }
    }

    /** `saveHistory`: the whole list, encoded, replaces what is stored under the key. */
    method SaveHistory()
      modifies defaults
      ensures defaults.entries == old(defaults.entries)[HistoryKey := EncodeHistory(historyItems)]
      ensures Persisted()
    {
      defaults.Set(EncodeHistory(historyItems), HistoryKey);
    }

    /**
     * Insert at index 0, keep the first 100, save: the steps `addImageHistory`
     * and `addVideoHistory` both take once they have their item.
     */
    method Insert(item: HistoryItem)
      modifies this, defaults
      ensures |historyItems| == Min(|old(historyItems)| + 1, MaxHistoryItems)
      ensures historyItems[0] == item
      ensures historyItems[1..] == old(historyItems)[..|historyItems| - 1]
      ensures defaults.entries == old(defaults.entries)[HistoryKey := EncodeHistory(historyItems)]
      ensures Persisted()
    {
      historyItems := [item] + historyItems;
      if |historyItems| > MaxHistoryItems {
        historyItems := historyItems[..MaxHistoryItems];
      }
      SaveHistory();
    }

    /**
     * `addImageHistory`: `thumbnail` stands for `prepareThumbnail` (or the
     * 300 x 300 redraw) and `jpegData` for `jpegData(compressionQuality: 0.7)`;
     * when either gives nothing, no entry is added.
     */
    method AddImageHistory(image: Foundation.Image, thumbnail: Foundation.Image -> Option<Foundation.Image>,
                           jpegData: Foundation.Image -> Option<seq<byte>>, id: Uuid, now: Date)
      modifies this, defaults
      ensures var t := thumbnail(image);
              var data := if t.Some? then jpegData(t.value) else None;
              if data.None? then
                historyItems == old(historyItems) && defaults.entries == old(defaults.entries)
              else
                && |historyItems| == Min(|old(historyItems)| + 1, MaxHistoryItems)
                && historyItems[0] == HistoryItem(id, now, Image, data, None)
                && historyItems[1..] == old(historyItems)[..|historyItems| - 1]
                && defaults.entries == old(defaults.entries)[HistoryKey := EncodeHistory(historyItems)]
                && Persisted()
    {
      var t := thumbnail(image);
      if t.Some? {
        var data := jpegData(t.value);
        if data.Some? {
          Insert(HistoryItem(id, now, Image, data, None));
        }
      }
    }

    /**
     * `addVideoHistory`: the entry carries the video URL, and a thumbnail
     * exactly when one was given and converts to JPEG.
     */
    method AddVideoHistory(videoURL: Url, thumbnail: Option<Foundation.Image>,
                           jpegData: Foundation.Image -> Option<seq<byte>>, id: Uuid, now: Date)
      modifies this, defaults
      ensures |historyItems| == Min(|old(historyItems)| + 1, MaxHistoryItems)
      ensures var data := if thumbnail.Some? then jpegData(thumbnail.value) else None;
              historyItems[0] == HistoryItem(id, now, Video, data, Some(videoURL))
      ensures historyItems[1..] == old(historyItems)[..|historyItems| - 1]
      ensures defaults.entries == old(defaults.entries)[HistoryKey := EncodeHistory(historyItems)]
      ensures Persisted()
    {
      var data := if thumbnail.Some? then jpegData(thumbnail.value) else None;
      Insert(HistoryItem(id, now, Video, data, Some(videoURL)));
    }

    /** `groupedHistoryItems`. */
    function GroupedHistoryItems(dayLabel: Date -> string): (groups: map<string, seq<HistoryItem>>)
      reads this
      ensures groups.Keys == set i | 0 <= i < |historyItems| :: dayLabel(historyItems[i].date)
      ensures forall day :: day in groups ==> groups[day] == ItemsOnDay(historyItems, dayLabel, day)
    {
      var groups := GroupByDay(historyItems, dayLabel);
      assert forall day :: day in groups ==> groups[day] == ItemsOnDay(historyItems, dayLabel, day) by {
        forall day | day in groups ensures groups[day] == ItemsOnDay(historyItems, dayLabel, day) {
          GroupsAreDays(historyItems, dayLabel, day);
        }
      }
      groups
    }

    /** `removeItem`: drops every entry with the item's id, then saves. */
    method RemoveItem(item: HistoryItem)
      modifies this, defaults
      ensures historyItems == WithoutId(old(historyItems), item.id)
      ensures defaults.entries == old(defaults.entries)[HistoryKey := EncodeHistory(historyItems)]
      ensures Persisted()
    {
      historyItems := WithoutId(historyItems, item.id);
      SaveHistory();
    }

    /** `clearAllHistory`: empties the list, then saves. */
    method ClearAllHistory()
      modifies this, defaults
      ensures historyItems == []
      ensures defaults.entries == old(defaults.entries)[HistoryKey := EncodeHistory([])]
      ensures Persisted()
    {
      historyItems := [];
      SaveHistory();
    }
  }
}
