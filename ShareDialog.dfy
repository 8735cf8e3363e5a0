/**
 * The share-button hook: the page address with the share parameters as a query
 * string, and the feature string of the pop-up window that opens it.
 */
module ShareDialog {
  import opened Wrappers
  import opened Text
  import opened Sequences
  import opened UriComponent

  /** A value of the `queryParams` object. */
  datatype ParamValue = Null | Undefined | Str(s: string) | Number(n: int) | Boolean(b: bool)

  /** `value != null`: loose inequality rules out exactly `null` and `undefined`. */
  predicate IsPresent(v: ParamValue) {
    v != Null && v != Undefined
  }

  /** `${value}` / `String(value)`, as `encodeURIComponent` converts its argument. */
  function ValueText(v: ParamValue): string {
    match v
    case Null => "null"
    case Undefined => "undefined"
    case Str(s) => s
    case Number(n) => IntToString(n)
    case Boolean(b) => if b then "true" else "false"
  }

  /** One `[key, value]` pair of `Object.entries(queryParams)`. */
  datatype Entry = Entry(key: string, value: ParamValue)

  /**
   * `.filter(([key, value]) => value != null)`: the present entries, in order;
   * falsy values such as `false`, `0` and `""` stay.
   */
  function KeptEntries(entries: seq<Entry>): (r: seq<Entry>)
    ensures forall e :: e in r <==> e in entries && IsPresent(e.value)
    ensures IsSubsequence(r, entries)
  {
    if entries == [] then []
    else
      var rest := KeptEntries(entries[1..]);
      if IsPresent(entries[0].value) then
        assert ([entries[0]] + rest)[1..] == rest;
        [entries[0]] + rest
      else
        SubsequenceOfTail(rest, entries);
        rest
  }

  /** `${encodeURIComponent(key)}=${encodeURIComponent(value)}`. */
  function EncodedPair(e: Entry): string {
    Encode(e.key) + "=" + Encode(ValueText(e.value))
  }

  function EncodedPairs(entries: seq<Entry>): (r: seq<string>)
    ensures |r| == |entries|
    ensures forall i :: 0 <= i < |entries| ==> r[i] == EncodedPair(entries[i])
  {
    seq(|entries|, i requires 0 <= i < |entries| => EncodedPair(entries[i]))
  }

  /** `paramString`: the kept entries' encoded pairs joined by `&`. */
  function ParamString(entries: seq<Entry>): string {
    Join(EncodedPairs(KeptEntries(entries)), "&")
  }

  /** `urlWithParams`: the `?` is there even when no parameter is kept. */
  function UrlWithParams(url: string, entries: seq<Entry>): string {
    url + "?" + ParamString(entries)
  }

  // ---------------------------------------------------------------------------
  // Reading a query string back
  // ---------------------------------------------------------------------------

  /** A key and the text of its value. */
  datatype TextPair = TextPair(key: string, text: string)

  function ReadPair(piece: string): Option<TextPair> {
    var kv := Split(piece, '=');
    if |kv| != 2 then None
    else match (Decode(kv[0]), Decode(kv[1]))
      case (Some(k), Some(v)) => Some(TextPair(k, v))
      case _ => None
  }

  function ReadPairs(pieces: seq<string>): Option<seq<TextPair>> {
    if pieces == [] then Some([])
    else match (ReadPair(pieces[0]), ReadPairs(pieces[1..]))
      case (Some(p), Some(ps)) => Some([p] + ps)
      case _ => None
  }

  /** Reads a query string: `&`-separated `key=value` pairs, each side decoded. */
  function ReadQuery(query: string): Option<seq<TextPair>> {
    if query == "" then Some([]) else ReadPairs(Split(query, '&'))
  }

  function Texts(entries: seq<Entry>): (r: seq<TextPair>)
    ensures |r| == |entries|
    ensures forall i :: 0 <= i < |entries| ==> r[i] == TextPair(entries[i].key, ValueText(entries[i].value))
  {
    seq(|entries|, i requires 0 <= i < |entries| => TextPair(entries[i].key, ValueText(entries[i].value)))
  }

  lemma PairAvoids(e: Entry)
    ensures '&' !in EncodedPair(e) && '?' !in EncodedPair(e) && '=' in EncodedPair(e)
  {
    EncodeAvoidsDelimiters(e.key);
    EncodeAvoidsDelimiters(ValueText(e.value));
    assert EncodedPair(e)[|Encode(e.key)|] == '=';
  }

  lemma ReadEncodedPair(e: Entry)
    ensures ReadPair(EncodedPair(e)) == Some(TextPair(e.key, ValueText(e.value)))
  {
    var k, v := Encode(e.key), Encode(ValueText(e.value));
    EncodeAvoidsDelimiters(e.key);
    EncodeAvoidsDelimiters(ValueText(e.value));
    SplitAtSeparator(k, v, '=');
    SplitNoSeparator(v, '=');
    assert EncodedPair(e) == k + ['='] + v;
    DecodeEncode(e.key);
    DecodeEncode(ValueText(e.value));
  }

  lemma {:induction false} ReadEncodedPairs(entries: seq<Entry>)
    ensures ReadPairs(EncodedPairs(entries)) == Some(Texts(entries))
  {
    if entries != [] {
      var pieces := EncodedPairs(entries);
      ReadEncodedPair(entries[0]);
      ReadEncodedPairs(entries[1..]);
      assert pieces[1..] == EncodedPairs(entries[1..]);
      var p := TextPair(entries[0].key, ValueText(entries[0].value));
      assert ReadPairs(pieces) == Some([p] + Texts(entries[1..]));
      assert [p] + Texts(entries[1..]) == Texts(entries);
    }
  }

  /**
   * The parameter string reads back as the kept entries, in order, as key and
   * value text, and holds one `&` between each two of them.
   */
  lemma ParamStringReadsBack(entries: seq<Entry>)
    ensures ReadQuery(ParamString(entries)) == Some(Texts(KeptEntries(entries)))
    ensures CountChar(ParamString(entries), '&') == if KeptEntries(entries) == [] then 0 else |KeptEntries(entries)| - 1
  {
    var pairs := EncodedPairs(KeptEntries(entries));
    forall k | 0 <= k < |pairs|
      ensures '&' !in pairs[k]
    {
      PairAvoids(KeptEntries(entries)[k]);
    }
    JoinSeparatorCount(pairs, '&');
    ReadEncodedPairs(KeptEntries(entries));
    if pairs != [] {
      SplitJoin(pairs, '&');
      PairAvoids(KeptEntries(entries)[0]);
      JoinStartsWithFirst(pairs, "&");
    }
  }

  /** A single present entry gives the parameter string of its one pair. */
  lemma OneEntry(e: Entry)
    requires IsPresent(e.value)
    ensures ParamString([e]) == Encode(e.key) + "=" + Encode(ValueText(e.value))
  {
    assert [e][1..] == [];
    assert KeptEntries([e]) == [e];
    assert EncodedPairs([e]) == [EncodedPair(e)];
  }

  /** A present value whose text needs no escaping appears as it is. */
  lemma PlainValueKept(key: string, v: ParamValue)
    requires IsPresent(v)
    requires forall i :: 0 <= i < |ValueText(v)| ==> IsUnreserved(ValueText(v)[i])
    ensures ParamString([Entry(key, v)]) == Encode(key) + "=" + ValueText(v)
  {
    OneEntry(Entry(key, v));
    EncodeKeepsUnreserved(ValueText(v));
  }

  /**
   * A list with no null or undefined value is kept whole and in order,
   * whatever its strings, numbers and booleans, falsy ones (`""`, `0`,
   * `false`) included, because the filter tests against null only.
   */
  lemma {:induction false} PresentValuesKept(entries: seq<Entry>)
    requires forall i :: 0 <= i < |entries| ==> IsPresent(entries[i].value)
    ensures KeptEntries(entries) == entries
  {
    if entries != [] {
      PresentValuesKept(entries[1..]);
      KeptCons(entries[0], entries[1..]);
      assert [entries[0]] + entries[1..] == entries;
    }
  }

  lemma KeptCons(e: Entry, rest: seq<Entry>)
    requires IsPresent(e.value)
    ensures KeptEntries([e] + rest) == [e] + KeptEntries(rest)
  {
    assert ([e] + rest)[1..] == rest;
  }

  /** Null and undefined values are dropped. */
  lemma NullValuesDropped(key: string, entries: seq<Entry>)
    ensures ParamString([Entry(key, Null)] + entries) == ParamString(entries)
    ensures ParamString([Entry(key, Undefined)] + entries) == ParamString(entries)
  {
    assert ([Entry(key, Null)] + entries)[1..] == entries;
    assert ([Entry(key, Undefined)] + entries)[1..] == entries;
  }

  /**
   * The address is the page address before the first `?`, and after it the
   * parameter string, when the page address has no `?` of its own.
   */
  lemma UrlSplitsAtQuestionMark(url: string, entries: seq<Entry>)
    requires '?' !in url
    ensures Split(UrlWithParams(url, entries), '?') == [url, ParamString(entries)]
  {
    var pairs := EncodedPairs(KeptEntries(entries));
    forall k | 0 <= k < |pairs|
      ensures '?' !in pairs[k]
    {
      PairAvoids(KeptEntries(entries)[k]);
    }
    JoinAvoids(pairs, "&", '?');
    SplitAtSeparator(url, ParamString(entries), '?');
    SplitNoSeparator(ParamString(entries), '?');
    assert UrlWithParams(url, entries) == url + ['?'] + ParamString(entries);
  }

  // ---------------------------------------------------------------------------
  // `openShareDialog`
  // ---------------------------------------------------------------------------

  const DefaultWidth := 550
  const DefaultHeight := 400

  /** The options object; an absent size takes its default. */
  datatype DialogOptions = DialogOptions(width: Option<int>, height: Option<int>)

  datatype Feature = Feature(key: string, value: string)

  /**
   * The `config` object's entries in declaration order. `left` and `top` are the
   * renderings of the centred window position, which comes from the browser window.
   */
  function Config(width: int, height: int, left: string, top: string): (r: seq<Feature>)
    ensures |r| == 12
  {
    [ Feature("height", IntToString(height)), Feature("width", IntToString(width)),
      Feature("resizable", "no"), Feature("centerScreen", "yes"), Feature("location", "no"),
      Feature("toolbar", "no"), Feature("status", "no"), Feature("directories", "no"),
      Feature("menubar", "no"), Feature("scrollbars", "yes"), Feature("left", left), Feature("top", top) ]
  }

  function RenderFeatures(config: seq<Feature>): (r: seq<string>)
    ensures |r| == |config|
    ensures forall i :: 0 <= i < |config| ==> r[i] == config[i].key + "=" + config[i].value
  {
    seq(|config|, i requires 0 <= i < |config| => config[i].key + "=" + config[i].value)
  }

  /** `configString`: `key=value` for each entry, joined by ", ". */
  function ConfigString(config: seq<Feature>): string {
    Join(RenderFeatures(config), ", ")
  }

  /** The arguments `window.open` receives. */
  datatype WindowOpen = WindowOpen(url: string, target: string, features: string)

  /** The call `openShareDialog` makes, with the default size for an absent width or height. */
  function OpenShareDialog(urlWithParams: string, options: DialogOptions, left: string, top: string): (call: WindowOpen)
    ensures call.url == urlWithParams && call.target == ""
    ensures options.width.None? ==> call.features == ConfigString(Config(DefaultWidth, options.height.GetOr(DefaultHeight), left, top))
    ensures options.height.None? ==> call.features == ConfigString(Config(options.width.GetOr(DefaultWidth), DefaultHeight, left, top))
    ensures options.width.Some? && options.height.Some? ==>
      call.features == ConfigString(Config(options.width.value, options.height.value, left, top))
  {
    var width := options.width.GetOr(DefaultWidth);
    var height := options.height.GetOr(DefaultHeight);
    WindowOpen(urlWithParams, "", ConfigString(Config(width, height, left, top)))
  }

  lemma ConfigAvoidsComma(width: int, height: int, left: string, top: string)
    requires ',' !in left && ',' !in top
    ensures forall k :: 0 <= k < 12 ==>
      ',' !in Config(width, height, left, top)[k].key && ',' !in Config(width, height, left, top)[k].value
  {
    IntToStringAvoidsComma(width);
    IntToStringAvoidsComma(height);
  }

  lemma PaddedAvoidsComma(config: seq<Feature>)
    requires forall k :: 0 <= k < |config| ==> ',' !in config[k].key && ',' !in config[k].value
    ensures forall k :: 0 <= k < |config| ==> ',' !in PadTail(RenderFeatures(config), " ")[k]
  {
    var rendered := RenderFeatures(config);
    forall k | 0 <= k < |config|
      ensures ',' !in PadTail(rendered, " ")[k]
    {
      assert rendered[k] == config[k].key + "=" + config[k].value;
    }
  }

  /**
   * Split on its commas, the feature string gives back the twelve entries in
   * declaration order, each after the first preceded by the space of ", "
   * (when the position renderings hold no comma, as number renderings do not).
   */
  lemma ConfigStringReadsBack(width: int, height: int, left: string, top: string)
    requires ',' !in left && ',' !in top
    ensures var config := Config(width, height, left, top);
      var pieces := Split(ConfigString(config), ',');
      && |pieces| == 12
      && forall k :: 0 <= k < 12 ==>
        pieces[k] == (if k == 0 then "" else " ") + config[k].key + "=" + config[k].value
  {
    var config := Config(width, height, left, top);
    var rendered := RenderFeatures(config);
    assert ", " == [','] + " ";
    JoinPadded(rendered, ',', " ");
    ConfigAvoidsComma(width, height, left, top);
    PaddedAvoidsComma(config);
    SplitJoin(PadTail(rendered, " "), ',');
  }

  lemma IntToStringAvoidsComma(n: int)
    ensures ',' !in IntToString(n)
  {
    var s := IntToString(n);
    forall i | 0 <= i < |s|
      ensures s[i] != ','
    {
      if i > 0 {
        assert IsDigit(s[i]);
      }
    }
  }
}
