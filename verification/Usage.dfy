/** Credit estimates: what a request may cost, from its payload and, once there is
    one, from the upstream response. */
module Usage {
  import opened Common
  import opened Decimal
  import opened Text
  import Routing
  import CreditLedger
  import CreditHistory

  datatype Json =
    | Null
    | Bool(value: bool)
    | Int(number: int)
    | Float(measure: real)
    | Str(text: string)
    | Arr(items: seq<Json>)
    | Obj(fields: Fields)

  type Fields = map<string, Json>

  /** `payload.get(name)`. */
  function Field(o: Fields, name: string): Json {
    if name in o then o[name] else Null
  }

  predicate Truthy(j: Json) {
    match j
    case Null => false
    case Bool(b) => b
    case Int(n) => n != 0
    case Float(x) => x != 0.0
    case Str(s) => s != []
    case Arr(items) => items != []
    case Obj(fields) => fields != map[]
  }

  const EXPENSIVE_SCRAPE_FORMATS := {"json", "summary", "screenshot", "audio", "video", "question", "highlights"}

  // ---------------------------------------------------------------------------
  // Scraping
  // ---------------------------------------------------------------------------

  /** The name an entry of `formats` contributes, if any. */
  function FormatName(item: Json): Option<string> {
    match item
    case Str(s) => Some(s)
    case Obj(fields) => if Field(fields, "type").Str? then Some(Field(fields, "type").text) else None
    case _ => None
  }

  function FormatNames(items: seq<Json>): set<string> {
    set i | 0 <= i < |items| && FormatName(items[i]).Some? :: FormatName(items[i]).value
  }

  function ScrapeFormats(formats: Json): set<string> {
    if !formats.Arr? || FormatNames(formats.items) == {} then {"markdown"} else FormatNames(formats.items)
  }

  method NormalizedScrapeFormats(formats: Json) returns (normalized: set<string>)
    ensures normalized == ScrapeFormats(formats)
    ensures normalized != {}
  {
    if !formats.Arr? {
      return {"markdown"};
    }
    normalized := {};
    for i := 0 to |formats.items|
      invariant normalized == FormatNames(formats.items[..i])
    {
      var item := formats.items[i];
      assert formats.items[..i + 1] == formats.items[..i] + [item];
      assert forall k :: 0 <= k < i ==> formats.items[..i + 1][k] == formats.items[..i][k];
      assert forall name :: name in FormatNames(formats.items[..i + 1]) <==>
               name in FormatNames(formats.items[..i]) || FormatName(item) == Some(name) by {
        NamesSnoc(formats.items[..i], item);
      }
      if item.Str? {
        normalized := normalized + {item.text};
      } else if item.Obj? {
        var formatType := Field(item.fields, "type");
        if formatType.Str? {
          normalized := normalized + {formatType.text};
        }
      }
    }
    assert formats.items[..|formats.items|] == formats.items;
    if normalized == {} {
      normalized := {"markdown"};
    }
  }

  lemma {:induction false} NamesSnoc(items: seq<Json>, item: Json)
    ensures FormatNames(items + [item])
            == FormatNames(items) + (if FormatName(item).Some? then {FormatName(item).value} else {})
  {
    var longer := items + [item];
    assert forall i :: 0 <= i < |items| ==> longer[i] == items[i];
    assert longer[|items|] == item;
    forall name | name in FormatNames(items)
      ensures name in FormatNames(longer)
    {
      var i :| 0 <= i < |items| && FormatName(items[i]) == Some(name);
      assert FormatName(longer[i]) == Some(name);
    }
    if FormatName(item).Some? {
      assert FormatName(longer[|items|]) == FormatName(item);
    }
  }

  function ScrapeCredits(payload: Fields): int {
    1 + |ScrapeFormats(Field(payload, "formats")) * EXPENSIVE_SCRAPE_FORMATS|
    + (if Truthy(Field(payload, "onlyCleanContent")) then 1 else 0)
    + (if Truthy(Field(payload, "actions")) then 1 else 0)
  }

  lemma {:induction false} ScrapeCreditsBounds(payload: Fields)
    ensures 1 <= ScrapeCredits(payload) <= 10
  {
    var chosen := ScrapeFormats(Field(payload, "formats")) * EXPENSIVE_SCRAPE_FORMATS;
    SubsetSize(chosen, EXPENSIVE_SCRAPE_FORMATS);
  }

  lemma {:induction false} SubsetSize<T>(a: set<T>, b: set<T>)
    requires a <= b
    ensures |a| <= |b|
  {
    if a != {} {
      var x :| x in a;
      SubsetSize(a - {x}, b - {x});
    }
  }

  lemma {:induction false} SameNamesSamePrice(payload: Fields, items: seq<Json>, others: seq<Json>)
    requires FormatNames(items) == FormatNames(others)
    ensures ScrapeCredits(payload["formats" := Arr(items)]) == ScrapeCredits(payload["formats" := Arr(others)])
  {
    var a, b := payload["formats" := Arr(items)], payload["formats" := Arr(others)];
    assert Field(a, "onlyCleanContent") == Field(b, "onlyCleanContent") && Field(a, "actions") == Field(b, "actions");
  }

  lemma {:induction false} NamesOfMembers(items: seq<Json>, others: seq<Json>)
    requires forall x :: x in items ==> x in others
    ensures FormatNames(items) <= FormatNames(others)
  {
    forall name | name in FormatNames(items)
      ensures name in FormatNames(others)
    {
      var i :| 0 <= i < |items| && FormatName(items[i]) == Some(name);
      assert items[i] in others;
      var k :| 0 <= k < |others| && others[k] == items[i];
      assert FormatName(others[k]) == Some(name);
    }
  }

  /** Neither the order nor the repetition of formats changes the price: lists with the
      same members cost the same. */
  lemma {:induction false} FormatsCountOnce(payload: Fields, items: seq<Json>, others: seq<Json>)
    requires forall x :: x in items <==> x in others
    ensures ScrapeCredits(payload["formats" := Arr(items)]) == ScrapeCredits(payload["formats" := Arr(others)])
  {
    NamesOfMembers(items, others);
    NamesOfMembers(others, items);
    SameNamesSamePrice(payload, items, others);
  }

  /** A format may be written as text or as an object with that type, whatever else the
      object says. */
  lemma {:induction false} NotationIsFree(payload: Fields, items: seq<Json>, i: nat, name: string, fields: Fields)
    requires i < |items| && items[i] == Str(name) && Field(fields, "type") == Str(name)
    ensures ScrapeCredits(payload["formats" := Arr(items)])
            == ScrapeCredits(payload["formats" := Arr(items[i := Obj(fields)])])
  {
    var others := items[i := Obj(fields)];
    assert forall k :: 0 <= k < |items| ==> FormatName(others[k]) == FormatName(items[k]);
    SameNamesPointwise(items, others);
    SameNamesSamePrice(payload, items, others);
  }

  lemma {:induction false} SameNamesPointwise(items: seq<Json>, others: seq<Json>)
    requires |items| == |others| && forall k :: 0 <= k < |items| ==> FormatName(others[k]) == FormatName(items[k])
    ensures FormatNames(items) == FormatNames(others)
  {
    forall name
      ensures name in FormatNames(items) <==> name in FormatNames(others)
    {
      if name in FormatNames(items) {
        var i :| 0 <= i < |items| && FormatName(items[i]) == Some(name);
        assert FormatName(others[i]) == Some(name);
      }
      if name in FormatNames(others) {
        var i :| 0 <= i < |others| && FormatName(others[i]) == Some(name);
        assert FormatName(items[i]) == Some(name);
      }
    }
  }

  // ---------------------------------------------------------------------------
  // All endpoints
  // ---------------------------------------------------------------------------

  /** Digits with single underscores between them. */
  predicate IsIntBody(s: string) {
    && s != [] && IsDigit(s[0]) && IsDigit(s[|s| - 1])
    && (forall i :: 0 <= i < |s| ==> IsDigit(s[i]) || s[i] == '_')
    && (forall i :: 0 <= i < |s| - 1 ==> s[i] != '_' || s[i + 1] != '_')
  }

  function DropUnderscores(s: string): (r: string)
    ensures (forall i :: 0 <= i < |s| ==> IsDigit(s[i]) || s[i] == '_') ==> AllDigits(r)
  {
    if s == [] then [] else (if s[0] == '_' then [] else [s[0]]) + DropUnderscores(s[1..])
  }

  /** `int(text)` in base ten; `None` is a `ValueError`. */
  function ParseInt(text: string): Option<int> {
    var s := Strip(text);
    var signed := s != [] && (s[0] == '-' || s[0] == '+');
    var body := if signed then s[1..] else s;
    if !IsIntBody(body) then None
    else
      var magnitude: int := ToNat(DropUnderscores(body));
      Some(if signed && s[0] == '-' then -magnitude else magnitude)
  }

  function IntValue(j: Json, default: int): Option<int> {
    match j
    case Int(n) => Some(n)
    case Str(s) => ParseInt(s)
    case _ => Some(default)
  }

  function SourceCount(payload: Fields): int {
    var sources := Field(payload, "sources");
    Max(1, if sources.Arr? then |sources.items| else 1)
  }

  /** `ceil(limit / 10)`, exactly. */
  function Tens(limit: int): int {
    (limit + 9) / 10
  }

  function SearchCreditsFor(limit: int, payload: Fields): int {
    var options := Field(payload, "scrapeOptions");
    2 * Tens(limit) * SourceCount(payload) + (if options.Obj? then limit * ScrapeCredits(options.fields) else 0)
  }

  function SearchCredits(payload: Fields): Option<int> {
    var limit := IntValue(Field(payload, "limit"), 10);
    if limit.None? then None else Some(SearchCreditsFor(Max(1, limit.value), payload))
  }

  function ResponseCreditsUsed(response: Option<Fields>): Option<int> {
    if response.None? then None
    else if Field(response.value, "creditsUsed").Int? then Some(Field(response.value, "creditsUsed").number)
    else
      var data := Field(response.value, "data");
      if data.Obj? && Field(data.fields, "creditsUsed").Int?
      then Some(Field(data.fields, "creditsUsed").number)
      else None
  }

  /** `estimate_credits`; `None` is the `ValueError` of an unreadable `limit`. */
  function EstimateCredits(endpoint: string, payload: Fields, response: Option<Fields>): Option<int> {
    if ResponseCreditsUsed(response).Some? then ResponseCreditsUsed(response)
    else if endpoint == "scrape" then Some(ScrapeCredits(payload))
    else if endpoint == "map" then Some(1)
    else if endpoint == "search" then SearchCredits(payload)
    else if endpoint == "crawl" then
      var limit := IntValue(Field(payload, "limit"), 1);
      if limit.None? then None else Some(Max(1, limit.value))
    else if endpoint == "batch_scrape" then
      var urls := Field(payload, "urls");
      Some(Max(1, if urls.Arr? then |urls.items| else 0))
    else Some(1)
  }

  lemma {:induction false} ProductAtLeast(a: int, b: int)
    requires a >= 1 && b >= 1
    ensures a * b >= a && a * b >= b
  {
    assert a * b - b == (a - 1) * b && a * b - a == a * (b - 1);
  }

  lemma {:induction false} MulMonotone(a: int, b: int, c: int)
    requires a <= b && c >= 0
    ensures a * c <= b * c
  {
    assert (b - a) * c >= 0;
  }

  lemma {:induction false} SearchCreditsBounds(limit: int, payload: Fields)
    requires limit >= 1
    ensures SearchCreditsFor(limit, payload) >= 2
    ensures Field(payload, "scrapeOptions").Obj? ==> SearchCreditsFor(limit, payload) >= limit + 2
  {
    ProductAtLeast(2 * Tens(limit), SourceCount(payload));
    var options := Field(payload, "scrapeOptions");
    if options.Obj? {
      ScrapeCreditsBounds(options.fields);
      ProductAtLeast(limit, ScrapeCredits(options.fields));
    }
  }

  /** A search never gets cheaper by asking for more results. */
  lemma {:induction false} SearchCreditsGrow(limit: int, larger: int, payload: Fields)
    requires 1 <= limit <= larger
    ensures SearchCreditsFor(limit, payload) <= SearchCreditsFor(larger, payload)
  {
    MulMonotone(2 * Tens(limit), 2 * Tens(larger), SourceCount(payload));
    var options := Field(payload, "scrapeOptions");
    if options.Obj? {
      ScrapeCreditsBounds(options.fields);
      MulMonotone(limit, larger, ScrapeCredits(options.fields));
    }
  }

  /** Before the response is known an estimate is at least one credit. */
  lemma {:induction false} EstimateIsPositive(endpoint: string, payload: Fields)
    ensures var e := EstimateCredits(endpoint, payload, None);
            e.Some? ==> e.value >= 1
  {
    if endpoint == "scrape" {
      ScrapeCreditsBounds(payload);
    } else if endpoint == "search" {
      var limit := IntValue(Field(payload, "limit"), 10);
      if limit.Some? {
        SearchCreditsBounds(Max(1, limit.value), payload);
      }
    }
  }

  // ---------------------------------------------------------------------------
  // The price list
  // ---------------------------------------------------------------------------

  /** There, and neither null, false, zero nor empty. */
  predicate Given(o: Fields, name: string) {
    && name in o && o[name] != Null && o[name] != Bool(false) && o[name] != Int(0) && o[name] != Float(0.0)
    && o[name] != Str("") && o[name] != Arr([]) && o[name] != Obj(map[])
  }

  lemma {:induction false} GivenIsTruthy(o: Fields, name: string)
    ensures Given(o, name) <==> Truthy(Field(o, name))
  {
  }

  /** The seven formats that cost extra. */
  lemma {:induction false} DearFormats()
    ensures EXPENSIVE_SCRAPE_FORMATS == {"json", "summary", "screenshot", "audio", "video", "question", "highlights"}
    ensures "markdown" !in EXPENSIVE_SCRAPE_FORMATS
  {
  }

  /** A scrape: one credit, one more for each of the dear formats asked for, and one each
      for clean content and for actions. */
  lemma {:induction false} ScrapePrice(payload: Fields)
    ensures var formats := Field(payload, "formats");
            var asked := if formats.Arr? then FormatNames(formats.items) else {};
            ScrapeCredits(payload)
            == 1 + |asked * EXPENSIVE_SCRAPE_FORMATS|
               + (if Given(payload, "onlyCleanContent") then 1 else 0)
               + (if Given(payload, "actions") then 1 else 0)
  {
    GivenIsTruthy(payload, "onlyCleanContent");
    GivenIsTruthy(payload, "actions");
    DearFormats();
    var formats := Field(payload, "formats");
    var asked := if formats.Arr? then FormatNames(formats.items) else {};
    assert {"markdown"} * EXPENSIVE_SCRAPE_FORMATS == {};
    assert asked == {} ==> asked * EXPENSIVE_SCRAPE_FORMATS == {};
  }

  lemma {:induction false} OneMore<T>(a: set<T>, x: T, dear: set<T>)
    ensures |(a + {x}) * dear| == |a * dear| + (if x in dear && x !in a then 1 else 0)
  {
    if x in a {
      assert a + {x} == a;
    } else if x in dear {
      assert (a + {x}) * dear == a * dear + {x};
    } else {
      assert (a + {x}) * dear == a * dear;
    }
  }

  /** One more format in the list costs one credit if it is dear and new. */
  lemma {:induction false} FormatPrice(payload: Fields, items: seq<Json>, name: string)
    ensures ScrapeCredits(payload["formats" := Arr(items + [Str(name)])])
            == ScrapeCredits(payload["formats" := Arr(items)])
               + (if name in EXPENSIVE_SCRAPE_FORMATS && name !in FormatNames(items) then 1 else 0)
  {
    var a, b := payload["formats" := Arr(items)], payload["formats" := Arr(items + [Str(name)])];
    NamesSnoc(items, Str(name));
    OneMore(FormatNames(items), name, EXPENSIVE_SCRAPE_FORMATS);
    ScrapePrice(a);
    ScrapePrice(b);
    assert Given(a, "onlyCleanContent") == Given(b, "onlyCleanContent") && Given(a, "actions") == Given(b, "actions");
  }

  lemma {:induction false} TensExactly(limit: int, tens: int)
    ensures Tens(limit) == tens <==> 10 * (tens - 1) < limit <= 10 * tens
  {
  }

  lemma {:induction false} SourcesExactly(payload: Fields)
    ensures var sources := Field(payload, "sources");
            SourceCount(payload) == if sources.Arr? && sources.items != [] then |sources.items| else 1
  {
  }

  /** A limit as it is meant: a number, or digits with or without a sign, but at least 1;
      and a default for whatever is neither number nor text. */
  ghost predicate Says(limit: Json, default: int, n: int) {
    match limit
    case Int(k) => n == Max(1, k)
    case Str(text) => exists sign: string, digits: string :: SpelledOut(text, sign, digits, n)
    case _ => n == default
  }

  predicate SpelledOut(text: string, sign: string, digits: string, n: int) {
    && text == sign + digits && IsNumber(digits) && (sign == "" || sign == "+" || sign == "-")
    && n == if sign == "-" then 1 else Max(1, ToNat(digits))
  }

  lemma {:induction false} SaysExactly(limit: Json, default: int, n: int)
    requires Says(limit, default, n) && default >= 1
    ensures IntValue(limit, default).Some? && Max(1, IntValue(limit, default).value) == n
  {
    if limit.Str? {
      var sign: string, digits: string :| SpelledOut(limit.text, sign, digits, n);
      if sign == "" {
        assert limit.text == digits;
        LimitAsText(digits);
      } else {
        SignedLimitAsText(sign[0], digits);
        assert limit.text == [sign[0]] + digits;
      }
    }
  }

  /** A search for `limit` results, 10 if it says nothing: two credits for every ten
      results begun and every source, and with scraping the price of a scrape for each. */
  lemma {:induction false} SearchPrice(payload: Fields, limit: int, tens: int)
    requires Says(Field(payload, "limit"), 10, limit) && 10 * (tens - 1) < limit <= 10 * tens
    ensures SearchCredits(payload) == Some(SearchTotal(payload, limit, tens))
  {
    SearchPriceFor(payload, limit, tens);
    SaysExactly(Field(payload, "limit"), 10, limit);
  }

  lemma {:induction false} SearchPriceFor(payload: Fields, limit: int, tens: int)
    requires 10 * (tens - 1) < limit <= 10 * tens
    ensures SearchCreditsFor(limit, payload) == SearchTotal(payload, limit, tens)
  {
    TensExactly(limit, tens);
  }

  function SearchTotal(payload: Fields, limit: int, tens: int): int {
    var options := Field(payload, "scrapeOptions");
    2 * tens * SourceCount(payload) + (if options.Obj? then limit * ScrapeCredits(options.fields) else 0)
  }

  /** Scrapes and searches cost those prices, a crawl its limit, a batch its addresses,
      everything else one credit; nothing is free. */
  lemma {:induction false} PriceList(payload: Fields, endpoint: string, limit: int)
    requires endpoint !in {"scrape", "search", "crawl", "batch_scrape"}
    ensures EstimateCredits("scrape", payload, None) == Some(ScrapeCredits(payload))
    ensures EstimateCredits("search", payload, None) == SearchCredits(payload)
    ensures Says(Field(payload, "limit"), 1, limit) ==> EstimateCredits("crawl", payload, None) == Some(limit)
    ensures var urls := Field(payload, "urls");
            EstimateCredits("batch_scrape", payload, None)
            == Some(if urls.Arr? && urls.items != [] then |urls.items| else 1)
    ensures EstimateCredits(endpoint, payload, None) == Some(1)
  {
    if Says(Field(payload, "limit"), 1, limit) {
      SaysExactly(Field(payload, "limit"), 1, limit);
    }
  }

  /** A limit in words is an error of the request. */
  lemma {:induction false} UnreadableLimit(payload: Fields, text: string, i: nat)
    requires Field(payload, "limit") == Str(text)
    requires i < |Strip(text)| && !IsDigit(Strip(text)[i]) && Strip(text)[i] !in {'_', '+', '-'}
    ensures EstimateCredits("crawl", payload, None).None? && EstimateCredits("search", payload, None).None?
  {
    var s := Strip(text);
    if s[0] == '-' || s[0] == '+' {
      assert s[1..][i - 1] == s[i];
    }
  }

  /** What the response says comes first: its `creditsUsed`, else that of its data; a
      response that says neither changes nothing. */
  lemma {:induction false} ResponseComesFirst(endpoint: string, payload: Fields, response: Fields)
    ensures var top, data := Field(response, "creditsUsed"), Field(response, "data");
            EstimateCredits(endpoint, payload, Some(response))
            == if top.Int? then Some(top.number)
               else if data.Obj? && Field(data.fields, "creditsUsed").Int?
                      then Some(Field(data.fields, "creditsUsed").number)
               else EstimateCredits(endpoint, payload, None)
  {
  }

  lemma {:induction false} DigitsHaveNoUnderscores(s: string)
    requires AllDigits(s)
    ensures DropUnderscores(s) == s
  {
    if s != [] {
      DigitsHaveNoUnderscores(s[1..]);
      assert s == [s[0]] + s[1..];
    }
  }

  lemma {:induction false} NothingToStrip(s: string)
    requires s != [] && !IsSpace(s[0]) && !IsSpace(s[|s| - 1])
    ensures Strip(s) == s
  {
  }

  /** A limit may be written out, with or without a sign. */
  lemma {:induction false} LimitAsText(digits: string)
    requires IsNumber(digits)
    ensures ParseInt(digits) == Some(ToNat(digits))
  {
    DigitsHaveNoUnderscores(digits);
    DigitsAreABody(digits);
    NothingToStrip(digits);
  }

  lemma {:induction false} DigitsAreABody(digits: string)
    requires IsNumber(digits)
    ensures IsIntBody(digits)
  {
  }

  lemma {:induction false} SignedLimitAsText(sign: char, digits: string)
    requires IsNumber(digits) && (sign == '+' || sign == '-')
    ensures var n: int := ToNat(digits);
            ParseInt([sign] + digits) == Some(if sign == '-' then -n else n)
  {
    DigitsHaveNoUnderscores(digits);
    DigitsAreABody(digits);
    NothingToStrip([sign] + digits);
    assert ([sign] + digits)[1..] == digits;
  }

  /** So an account that is out of credits, or whose credits are unknown, is never
      selected, whatever is asked of it. */
  lemma {:induction false} EmptyAccountIsNeverSelected(accounts: seq<CreditLedger.AccountRecord>, i: nat,
                                                       endpoint: string, payload: Fields, now: int)
    requires i < |accounts| && CreditLedger.DistinctIds(accounts)
    requires accounts[i].remainingCreditsLive.None? || accounts[i].remainingCreditsLive.value <= 0
    requires EstimateCredits(endpoint, payload, None).Some?
    ensures var q := Routing.Query(endpoint, EstimateCredits(endpoint, payload, None).value, now);
            var r := Routing.Select(CreditLedger.List(accounts), q);
            r.Some? ==> r.value.id != accounts[i].id
  {
    EstimateIsPositive(endpoint, payload);
    var q := Routing.Query(endpoint, EstimateCredits(endpoint, payload, None).value, now);
    CreditHistory.SelectedCanPay(accounts, q);
  }
}
