/** Order extraction from a Cargo manifest (the `/5/manifest` route): the
    request's content type selects a parser, the parsed manifest must carry
    the magic keyword, and the well-typed entries of `package.metadata.orders`
    become the orders, in order.  The parsers themselves are a parameter. */
module CargoManifest {
  import opened Common

  const I64Min: int := -0x8000_0000_0000_0000
  const I64Limit: int := 0x8000_0000_0000_0000
  const U32Limit: nat := 0x1_0000_0000

  /** A signed 64-bit integer, the integer of a parsed manifest value. */
  type I64 = x: int | I64Min <= x < I64Limit

  /** An unsigned 32-bit integer (`u32`). */
  type U32 = x: nat | x < U32Limit

  /** `cargo_manifest::Value`: the parsed value tree. */
  datatype Value =
    | VString(str: string)
    | VInteger(number: I64)
    | VFloat
    | VBoolean(truth: bool)
    | VDatetime
    | VArray(items: seq<Value>)
    | VTable(fields: map<string, Value>)

  /** `MaybeInherited<Vec<String>>`: keywords given locally or inherited from a workspace. */
  datatype Keywords = Local(words: seq<string>) | Inherited

  /** The parts of `[package]` the route looks at. */
  datatype Package = Package(keywords: Option<Keywords>, metadata: Option<Value>)

  datatype Manifest = Manifest(package: Option<Package>)

  datatype Order = Order(item: string, quantity: U32)

  datatype Metadata = Metadata(orders: seq<Order>)

  /** The early responses of the extractor. */
  datatype Rejection = UnsupportedContentType | InvalidManifest | MagicKeywordNotProvided | NoContent

  /** Status and body of each rejection. */
  function RejectionResponse(r: Rejection): (nat, string)
  {
    match r
    case UnsupportedContentType => (StatusUnsupportedMediaType, "")
    case InvalidManifest => (StatusBadRequest, "Invalid manifest")
    case MagicKeywordNotProvided => (StatusBadRequest, "Magic keyword not provided")
    case NoContent => (StatusNoContent, "")
  }

  datatype Format = Toml | Json | Yaml

  /** A header value either reads as text or holds bytes `to_str` refuses. */
  datatype HeaderValue = Text(text: string) | Opaque

  /** The request as the extractor sees it; a body of `None` could not be read as a string. */
  datatype Request = Request(contentType: Option<HeaderValue>, body: Option<string>)

  /** The TOML, JSON and YAML deserializers: `None` is a parse error. */
  type Parser = (Format, string) -> Option<Manifest>

  const MagicKeyword: string := "Christmas 2024"

  function FormatOf(contentType: string): (f: Option<Format>)
    ensures f == Some(Toml) <==> contentType == "application/toml"
    ensures f == Some(Json) <==> contentType == "application/json"
    ensures f == Some(Yaml) <==> contentType == "application/yaml"
    ensures f.Some? <==> contentType in {"application/toml", "application/json", "application/yaml"}
  {
    if contentType == "application/toml" then Some(Toml)
    else if contentType == "application/json" then Some(Json)
    else if contentType == "application/yaml" then Some(Yaml)
    else None
  }

  // ---------------------------------------------------------------------
  // Orders
  // ---------------------------------------------------------------------

  /** One entry of the `orders` array: kept when it is a table whose `item`
      is a string and whose `quantity` is an integer that fits in a `u32`. */
  function KeepOrder(v: Value): (r: Option<Order>)
    ensures r.Some? <==>
      v.VTable? && "item" in v.fields && v.fields["item"].VString?
      && "quantity" in v.fields && v.fields["quantity"].VInteger?
      && 0 <= v.fields["quantity"].number < U32Limit
    ensures r.Some? ==> r.value.item == v.fields["item"].str && r.value.quantity == v.fields["quantity"].number
  {
    if !v.VTable? then None
    else if !("item" in v.fields && v.fields["item"].VString?) then None
    else if !("quantity" in v.fields && v.fields["quantity"].VInteger?) then None
    else
      var q := v.fields["quantity"].number;
      if 0 <= q < U32Limit then Some(Order(v.fields["item"].str, q)) else None
  }

  /** `Metadata::add_order`. */
  function AddOrder(m: Metadata, item: string, quantity: U32): (m': Metadata)
    ensures |m'.orders| == |m.orders| + 1
    ensures m'.orders[..|m.orders|] == m.orders
    ensures m'.orders[|m.orders|] == Order(item, quantity)
  {
    Metadata(m.orders + [Order(item, quantity)])
  }

  /** The loop of `from_request`: each entry in turn is either skipped or
      appended with `add_order`. */
  function CollectOrders(items: seq<Value>): Metadata
    decreases |items|
  {
    if items == [] then Metadata([])
    else
      var m := CollectOrders(items[..|items| - 1]);
      match KeepOrder(items[|items| - 1])
      case None => m
      case Some(o) => AddOrder(m, o.item, o.quantity)
  }

  /** Positions of the kept entries, in increasing order. */
  function KeptIndices(items: seq<Value>): (idx: seq<nat>)
    ensures forall k :: 0 <= k < |idx| ==> idx[k] < |items|
    decreases |items|
  {
    if items == [] then []
    else
      var front := KeptIndices(items[..|items| - 1]);
      if KeepOrder(items[|items| - 1]).Some? then front + [|items| - 1] else front
  }

  predicate StrictlyIncreasing(idx: seq<nat>)
  {
    forall a, b :: 0 <= a < b < |idx| ==> idx[a] < idx[b]
  }

  /** The extracted orders are exactly the kept entries, in their original
      order: the k-th order comes from the entry at the k-th kept position,
      and an entry's position is kept iff the entry is well-typed. */
  lemma {:induction false} CollectOrdersSpec(items: seq<Value>)
    ensures var idx := KeptIndices(items);
      |CollectOrders(items).orders| == |idx|
      && StrictlyIncreasing(idx)
      && (forall k :: 0 <= k < |idx| ==> KeepOrder(items[idx[k]]) == Some(CollectOrders(items).orders[k]))
      && (forall i :: 0 <= i < |items| ==> (KeepOrder(items[i]).Some? <==> i in idx))
    decreases |items|
  {
    if items != [] {
      var front := items[..|items| - 1];
      var last := items[|items| - 1];
      CollectOrdersSpec(front);
      assert forall i :: 0 <= i < |front| ==> front[i] == items[i];
      if KeepOrder(last).Some? {
        assert CollectOrders(items).orders == CollectOrders(front).orders + [KeepOrder(last).value];
        assert KeptIndices(items) == KeptIndices(front) + [|items| - 1];
      } else {
        assert CollectOrders(items) == CollectOrders(front);
        assert KeptIndices(items) == KeptIndices(front);
      }
    }
  }

  /** Every extracted order copies an entry of the array. */
  lemma CollectedOrdersComeFromItems(items: seq<Value>, k: nat)
    requires k < |CollectOrders(items).orders|
    ensures exists i :: 0 <= i < |items| && KeepOrder(items[i]) == Some(CollectOrders(items).orders[k])
  {
    CollectOrdersSpec(items);
    var idx := KeptIndices(items);
    assert KeepOrder(items[idx[k]]) == Some(CollectOrders(items).orders[k]);
  }

  /** Appending an entry to the array appends its order, if kept, and leaves
      the orders before it alone. */
  lemma CollectOrdersAppend(items: seq<Value>, v: Value)
    ensures CollectOrders(items + [v]).orders ==
      CollectOrders(items).orders + (if KeepOrder(v).Some? then [KeepOrder(v).value] else [])
  {
    assert (items + [v])[..|items|] == items;
  }

  // ---------------------------------------------------------------------
  // The extractor
  // ---------------------------------------------------------------------

  /** The manifest lists the magic keyword among its own (not inherited)
      package keywords. */
  predicate HasMagicKeyword(m: Manifest)
  {
    m.package.Some? && m.package.value.keywords.Some? && m.package.value.keywords.value.Local?
    && MagicKeyword in m.package.value.keywords.value.words
  }

  /** `package.metadata` is a table whose `orders` entry is an array. */
  predicate HasOrdersArray(m: Manifest)
  {
    m.package.Some? && m.package.value.metadata.Some? && m.package.value.metadata.value.VTable?
    && "orders" in m.package.value.metadata.value.fields
    && m.package.value.metadata.value.fields["orders"].VArray?
  }

  function OrdersArray(m: Manifest): seq<Value>
    requires HasOrdersArray(m)
  {
    m.package.value.metadata.value.fields["orders"].items
  }

  /** The checks made on a parsed manifest, in order: the magic keyword, then
      the shape of `package.metadata.orders`. */
  function Validate(m: Manifest): (r: Result<Metadata, Rejection>)
    ensures r == Err(MagicKeywordNotProvided) <==> !HasMagicKeyword(m)
    ensures r == Err(NoContent) <==> HasMagicKeyword(m) && !HasOrdersArray(m)
    ensures r.Ok? <==> HasMagicKeyword(m) && HasOrdersArray(m)
    ensures r.Ok? ==> r.value == CollectOrders(OrdersArray(m))
  {
    if m.package.None? then Err(MagicKeywordNotProvided)
    else
      var p := m.package.value;
      if !(p.keywords.Some? && p.keywords.value.Local?) then Err(MagicKeywordNotProvided)
      else if MagicKeyword !in p.keywords.value.words then Err(MagicKeywordNotProvided)
      else if p.metadata.None? then Err(NoContent)
      else if !p.metadata.value.VTable? then Err(NoContent)
      else
        var fields := p.metadata.value.fields;
        if !("orders" in fields && fields["orders"].VArray?) then Err(NoContent)
        else Ok(CollectOrders(fields["orders"].items))
  }

  /** `Metadata::from_request`. */
  function FromRequest(req: Request, parse: Parser): (r: Result<Metadata, Rejection>)
    ensures req.contentType.None? ==> r == Err(UnsupportedContentType)
    ensures req.contentType.Some? && req.body.None? ==> r == Err(InvalidManifest)
    ensures req.contentType.Some? && req.body.Some? ==>
      (r == Err(UnsupportedContentType) <==>
        (req.contentType.value.Opaque? || FormatOf(req.contentType.value.text).None?))
    ensures (req.contentType.Some? && req.contentType.value.Text? && req.body.Some?
             && FormatOf(req.contentType.value.text).Some?) ==>
        var parsed := parse(FormatOf(req.contentType.value.text).value, req.body.value);
        (parsed.None? ==> r == Err(InvalidManifest)) && (parsed.Some? ==> r == Validate(parsed.value))
    ensures r.Ok? ==> exists f: Format, m: Manifest ::
      req.body.Some? && parse(f, req.body.value) == Some(m) && Validate(m) == r
  {
    if req.contentType.None? then Err(UnsupportedContentType)
    else if req.body.None? then Err(InvalidManifest)
    else
      match req.contentType.value
      case Opaque => Err(UnsupportedContentType)
      case Text(ct) =>
        match FormatOf(ct)
        case None => Err(UnsupportedContentType)
        case Some(f) =>
          match parse(f, req.body.value)
          case None => Err(InvalidManifest)
          case Some(m) => Validate(m)
  }

  // ---------------------------------------------------------------------
  // Display
  // ---------------------------------------------------------------------

  function DigitChar(d: nat): (c: char)
    requires d < 10
    ensures '0' <= c <= '9'
  {
    ('0' as int + d) as char
  }

  /** Decimal `Display` of an unsigned integer. */
  function Decimal(n: nat): (s: string)
    ensures |s| >= 1
    ensures forall i :: 0 <= i < |s| ==> '0' <= s[i] <= '9'
    ensures s[0] == '0' ==> n == 0
  {
    if n < 10 then [DigitChar(n)] else Decimal(n / 10) + [DigitChar(n % 10)]
  }

  /** Reads a string of decimal digits. */
  function DecimalValue(s: string): nat
    requires forall i :: 0 <= i < |s| ==> '0' <= s[i] <= '9'
    decreases |s|
  {
    if s == [] then 0 else 10 * DecimalValue(s[..|s| - 1]) + (s[|s| - 1] as int - '0' as int)
  }

  /** The decimal text reads back as the number. */
  lemma {:induction false} DecimalRoundTrip(n: nat)
    ensures DecimalValue(Decimal(n)) == n
  {
    if n >= 10 {
      DecimalRoundTrip(n / 10);
      var s := Decimal(n);
      assert s[..|s| - 1] == Decimal(n / 10);
    }
  }

  /** `Display for Order`: "item: quantity". */
  function OrderText(o: Order): string
  {
    o.item + ": " + Decimal(o.quantity)
  }

  /** `join("\n")`: the lines separated by newlines, no trailing newline. */
  function JoinLines(lines: seq<string>): string
  {
    if lines == [] then ""
    else if |lines| == 1 then lines[0]
    else lines[0] + "\n" + JoinLines(lines[1..])
  }

  /** One text line per order. */
  function OrderLines(orders: seq<Order>): (lines: seq<string>)
    ensures |lines| == |orders|
    ensures forall i :: 0 <= i < |orders| ==> lines[i] == OrderText(orders[i])
  {
    seq(|orders|, i requires 0 <= i < |orders| => OrderText(orders[i]))
  }

  /** `Display for Metadata`: the order lines joined, so no trailing newline. */
  function MetadataText(m: Metadata): (s: string)
    ensures m.orders == [] <==> s == ""
    ensures m.orders != [] ==> '0' <= s[|s| - 1] <= '9'
  {
    OrderTextsEndInDigit(m.orders);
    JoinLines(OrderLines(m.orders))
  }

  lemma {:induction false} OrderTextsEndInDigit(orders: seq<Order>)
    ensures var s := JoinLines(OrderLines(orders));
      (orders == [] <==> s == "") && (orders != [] ==> '0' <= s[|s| - 1] <= '9')
    decreases |orders|
  {
    if |orders| > 1 {
      OrderTextsEndInDigit(orders[1..]);
      assert OrderLines(orders)[1..] == OrderLines(orders[1..]);
    }
  }

  /** `str::split('\n')`. */
  function SplitLines(s: string): (r: seq<string>)
    ensures |r| >= 1
    decreases |s|
  {
    if s == [] then [""]
    else
      var rest := SplitLines(s[1..]);
      if s[0] == '\n' then [""] + rest else [[s[0]] + rest[0]] + rest[1..]
  }

  predicate NoNewline(line: string)
  {
    '\n' !in line
  }

  lemma {:induction false} SplitLineThenRest(line: string, tail: string)
    requires NoNewline(line)
    ensures SplitLines(line + "\n" + tail) == [line] + SplitLines(tail)
    ensures SplitLines(line) == [line]
    decreases |line|
  {
    if line != [] {
      SplitLineThenRest(line[1..], tail);
      assert (line + "\n" + tail)[1..] == line[1..] + "\n" + tail;
      assert [line[0]] + line[1..] == line;
    }
  }

  /** Splitting the joined text on newlines gives the lines back, when no
      line contains a newline itself. */
  lemma {:induction false} JoinSplitRoundTrip(lines: seq<string>)
    requires |lines| >= 1
    requires forall i :: 0 <= i < |lines| ==> NoNewline(lines[i])
    ensures SplitLines(JoinLines(lines)) == lines
    decreases |lines|
  {
    if |lines| == 1 {
      SplitLineThenRest(lines[0], "");
    } else {
      JoinSplitRoundTrip(lines[1..]);
      SplitLineThenRest(lines[0], JoinLines(lines[1..]));
    }
  }

  /** The rendered order list splits back into one "item: quantity" line per
      order when no item contains a newline. */
  lemma MetadataTextLines(m: Metadata)
    requires m.orders != []
    requires forall i :: 0 <= i < |m.orders| ==> NoNewline(m.orders[i].item)
    ensures SplitLines(MetadataText(m)) == OrderLines(m.orders)
  {
    var lines := OrderLines(m.orders);
    forall i | 0 <= i < |lines|
      ensures NoNewline(lines[i])
    {
      var d := Decimal(m.orders[i].quantity);
      assert lines[i] == m.orders[i].item + ": " + d;
      assert forall j :: 0 <= j < |d| ==> d[j] != '\n';
    }
    JoinSplitRoundTrip(lines);
  }

  // ---------------------------------------------------------------------
  // The route
  // ---------------------------------------------------------------------

  /** POST /5/manifest: a rejection's own response, 204 when no order
      survived, else 200 with the order lines. */
  function ManifestRoute(req: Request, parse: Parser): (resp: (nat, string))
    ensures resp.0 == StatusOk <==> FromRequest(req, parse).Ok? && FromRequest(req, parse).value.orders != []
    ensures resp.0 == StatusOk ==> resp.1 == MetadataText(FromRequest(req, parse).value) && resp.1 != ""
    ensures FromRequest(req, parse).Ok? && resp.0 != StatusOk ==> resp == (StatusNoContent, "")
    ensures resp.0 == StatusUnsupportedMediaType <==> FromRequest(req, parse) == Err(UnsupportedContentType)
    ensures resp.0 == StatusUnsupportedMediaType ==> resp.1 == ""
    ensures FromRequest(req, parse) == Err(InvalidManifest) <==> resp == (StatusBadRequest, "Invalid manifest")
    ensures FromRequest(req, parse) == Err(MagicKeywordNotProvided) <==> resp == (StatusBadRequest, "Magic keyword not provided")
    ensures resp.0 == StatusNoContent <==>
      (FromRequest(req, parse) == Err(NoContent) || (FromRequest(req, parse).Ok? && FromRequest(req, parse).value.orders == []))
    ensures resp.0 == StatusNoContent ==> resp.1 == ""
    ensures resp.0 in {StatusOk, StatusNoContent, StatusBadRequest, StatusUnsupportedMediaType}
  {
    match FromRequest(req, parse)
    case Err(rej) => RejectionResponse(rej)
    case Ok(m) => if m.orders == [] then (StatusNoContent, "") else (StatusOk, MetadataText(m))
  }
}
