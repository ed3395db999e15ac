/**
  The query arithmetic of `GET /menu` and `GET /menuCount`: the `page`,
  `limit` and `category` query parameters, the category filter and the
  `skip(page * limit).limit(limit)` window.
 */
module MenuQuery {
  import opened Wrappers
  import opened Documents
  import opened Records

  // ---------------------------------------------------------------------------
  // parseInt

  predicate IsDigit(c: char)
  {
    '0' <= c <= '9'
  }

  ghost predicate AllDigits(s: string)
  {
    forall i :: 0 <= i < |s| ==> IsDigit(s[i])
  }

  /** The longest prefix of `s` made of decimal digits. */
  function LeadingDigits(s: string): (d: string)
    ensures d <= s && AllDigits(d)
    ensures |d| < |s| ==> !IsDigit(s[|d|])
  {
    if s != [] && IsDigit(s[0]) then [s[0]] + LeadingDigits(s[1..]) else []
  }

  function Pow10(k: nat): (p: nat)
    ensures p >= 1
  {
    if k == 0 then 1 else 10 * Pow10(k - 1)
  }

  /** The value of a string of decimal digits, most significant first: `k` digits are below `10^k`. */
  function DigitsValue(d: string): (v: nat)
    requires AllDigits(d)
    ensures v < Pow10(|d|)
  {
    if d == [] then 0
    else
      var front := DigitsValue(d[..|d| - 1]);
      DigitsBelow(front, d[|d| - 1] as int - '0' as int, Pow10(|d| - 1));
      front * 10 + (d[|d| - 1] as int - '0' as int)
  }

  lemma DigitsBelow(front: nat, digit: nat, p: nat)
    requires front < p && digit < 10
    ensures front * 10 + digit < 10 * p
  {
    assert front * 10 <= (p - 1) * 10;
  }

  /**
    `parseInt(q)` on a query parameter: the value of its leading decimal
    digits, and `NaN` (here `None`) when the parameter is absent or does not
    start with a digit.
   */
  function ParseInt(q: Option<string>): (r: Option<nat>)
    ensures r.None? <==> q.None? || q.value == [] || !IsDigit(q.value[0])
  {
    match q
    case None => None
    case Some(s) =>
      var d := LeadingDigits(s);
      if d == [] then None else Some(DigitsValue(d))
  }

  function DigitChar(n: nat): (c: char)
    requires n < 10
    ensures IsDigit(c) && c as int - '0' as int == n
  {
    ('0' as int + n) as char
  }

  /** The decimal numeral of `n`, as a client writes it in a query string. */
  function Decimal(n: nat): (s: string)
    ensures |s| >= 1 && AllDigits(s)
  {
    if n < 10 then [DigitChar(n)] else Decimal(n / 10) + [DigitChar(n % 10)]
  }

  lemma {:induction false} LeadingDigitsOfDigits(d: string, suffix: string)
    requires AllDigits(d)
    requires suffix == [] || !IsDigit(suffix[0])
    ensures LeadingDigits(d + suffix) == d
  {
    if d != [] {
      LeadingDigitsOfDigits(d[1..], suffix);
      assert (d + suffix)[1..] == d[1..] + suffix;
      assert d == [d[0]] + d[1..];
    } else {
      assert d + suffix == suffix;
    }
  }

  lemma {:induction false} DecimalValue(n: nat)
    ensures DigitsValue(Decimal(n)) == n
  {
    if n >= 10 {
      DecimalValue(n / 10);
      var s := Decimal(n);
      assert s[..|s| - 1] == Decimal(n / 10);
    }
  }

  /** `k` zeros. */
  function Zeros(k: nat): (z: string)
    ensures |z| == k && AllDigits(z)
  {
    if k == 0 then [] else Zeros(k - 1) + "0"
  }

  lemma {:induction false} ZerosValue(k: nat)
    ensures DigitsValue(Zeros(k)) == 0
  {
    if k > 0 {
      ZerosValue(k - 1);
      assert Zeros(k)[..k - 1] == Zeros(k - 1);
    }
  }

  /** Leading zeros do not change the value `parseInt` reads. */
  lemma {:induction false} ZeroPadded(z: string, s: string)
    requires AllDigits(z) && AllDigits(s) && DigitsValue(z) == 0
    ensures AllDigits(z + s) && DigitsValue(z + s) == DigitsValue(s)
  {
    if s == [] {
      assert z + s == z;
    } else {
      var front := s[..|s| - 1];
      ZeroPadded(z, front);
      assert (z + s)[..|z + s| - 1] == z + front;
    }
  }

  /**
    `parseInt` reads a zero-padded numeral of `n` up to `2^53` as `n`
    (`"05"` is 5), whatever non-digit text follows it.
   */
  lemma ParsePadded(k: nat, n: nat, suffix: string)
    requires n <= 0x20_0000_0000_0000
    requires suffix == [] || !IsDigit(suffix[0])
    ensures ParseInt(Some(Zeros(k) + Decimal(n) + suffix)) == Some(n)
  {
    ZerosValue(k);
    ZeroPadded(Zeros(k), Decimal(n));
    DecimalValue(n);
    LeadingDigitsOfDigits(Zeros(k) + Decimal(n), suffix);
  }

  /**
    `parseInt` reads back the numeral of any `n` up to `2^53`, whatever
    non-digit text follows it; up to there a JavaScript number holds every
    integer exactly.
   */
  lemma ParseDecimal(n: nat, suffix: string)
    requires n <= 0x20_0000_0000_0000
    requires suffix == [] || !IsDigit(suffix[0])
    ensures ParseInt(Some(Decimal(n) + suffix)) == Some(n)
  {
    LeadingDigitsOfDigits(Decimal(n), suffix);
    DecimalValue(n);
  }

  // ---------------------------------------------------------------------------
  // Query parameters

  /** `parseInt(req.query.page) || 1`: `NaN` and 0 are both falsy, so both give page 1. */
  function PageOf(q: Option<string>): (page: nat)
    ensures page >= 1
    ensures ParseInt(q).Some? && ParseInt(q).value > 0 ==> page == ParseInt(q).value
    ensures ParseInt(q).None? || ParseInt(q) == Some(0) ==> page == 1
  {
    match ParseInt(q)
    case Some(n) => if n == 0 then 1 else n
    case None => 1
  }

  /** `parseInt(req.query.limit) || 0`: `NaN` gives 0, which means no limit. */
  function LimitOf(q: Option<string>): (limit: nat)
    ensures ParseInt(q).None? ==> limit == 0
    ensures ParseInt(q).Some? ==> limit == ParseInt(q).value
  {
    match ParseInt(q)
    case Some(n) => n
    case None => 0
  }

  lemma MulAtLeast(a: nat, b: nat)
    requires a >= 1
    ensures a * b >= b
  {
    assert a * b == (a - 1) * b + b;
  }

  /** `skip = page * limit`: how many filtered items the page skips. */
  function Skip(pageQ: Option<string>, limitQ: Option<string>): (skip: nat)
    ensures skip >= LimitOf(limitQ)
    ensures LimitOf(limitQ) == 0 ==> skip == 0
  {
    var page, limit := PageOf(pageQ), LimitOf(limitQ);
    MulAtLeast(page, limit);
    page * limit
  }

  /** `category ? { category } : {}`: an absent or empty category filters nothing. */
  function CategoryOf(q: Option<string>): (c: Option<string>)
    ensures c.Some? ==> c.value != [] && q == c
    ensures q.Some? && q.value != [] ==> c == q
  {
    match q
    case Some(cat) => if cat == [] then None else q
    case None => None
  }

  /** The query object `{ category }`, or `{}` which every document matches. */
  function CategoryFilter(c: Option<string>): (matches: Doc<MenuItem> -> bool)
    ensures c.None? ==> forall d :: matches(d)
    ensures c.Some? ==> forall d :: matches(d) <==> d.body.category == c.value
  {
    (d: Doc<MenuItem>) => c.None? || d.body.category == c.value
  }

  /** `menuCollection.find(query)`: the menu in the requested category, in collection order. */
  function InCategory(menu: seq<Doc<MenuItem>>, c: Option<string>): (r: seq<Doc<MenuItem>>)
    ensures c.None? ==> r == menu
    ensures c.Some? ==> forall d :: d in r <==> d in menu && d.body.category == c.value
  {
    if c.None? then menu else Filter(menu, CategoryFilter(c))
  }

  // ---------------------------------------------------------------------------
  // GET /menu and GET /menuCount

  /**
    The items `GET /menu?page&limit&category` sends: the category-filtered
    menu with the first `page * limit` items skipped and at most `limit`
    items kept when `limit` is positive.
   */
  function MenuPage(menu: seq<Doc<MenuItem>>, pageQ: Option<string>, limitQ: Option<string>, categoryQ: Option<string>): (r: seq<Doc<MenuItem>>)
    ensures LimitOf(limitQ) > 0 ==> |r| <= LimitOf(limitQ)
    ensures forall d :: d in r ==> d in menu
  {
    var f, skip, limit := InCategory(menu, CategoryOf(categoryQ)), Skip(pageQ, limitQ), LimitOf(limitQ);
    SkipLimitWithin(f, skip, limit);
    SkipLimit(f, skip, limit)
  }

  /** The `count` `GET /menuCount?category` sends: `countDocuments` with the same query. */
  function MenuCount(menu: seq<Doc<MenuItem>>, categoryQ: Option<string>): (n: nat)
    ensures n <= |menu|
  {
    Count(menu, CategoryFilter(CategoryOf(categoryQ)))
  }

  /**
    Without a positive limit nothing is skipped (`skip` is `page * 0`) and the
    whole filtered menu is sent, so the page has exactly `/menuCount` items.
   */
  lemma UnlimitedPageIsWholeMenu(menu: seq<Doc<MenuItem>>, pageQ: Option<string>, limitQ: Option<string>, categoryQ: Option<string>)
    requires LimitOf(limitQ) == 0
    ensures MenuPage(menu, pageQ, limitQ, categoryQ) == InCategory(menu, CategoryOf(categoryQ))
    ensures |MenuPage(menu, pageQ, limitQ, categoryQ)| == MenuCount(menu, categoryQ)
  {
    var c := CategoryOf(categoryQ);
    CountIsFilterLength(menu, CategoryFilter(c));
    if c.None? {
      FilterAll(menu, CategoryFilter(c));
    }
  }

  /**
    The page is the window of the filtered menu that starts at `page * limit`:
    `limit` items when that many remain, the rest of the filtered menu when
    fewer remain or there is no limit, and nothing past its end.
   */
  lemma PageIsWindow(menu: seq<Doc<MenuItem>>, pageQ: Option<string>, limitQ: Option<string>, categoryQ: Option<string>)
    ensures var r, f := MenuPage(menu, pageQ, limitQ, categoryQ), InCategory(menu, CategoryOf(categoryQ));
      var skip, limit := PageOf(pageQ) * LimitOf(limitQ), LimitOf(limitQ);
      && |r| == (if skip >= |f| then 0 else if limit == 0 || skip + limit > |f| then |f| - skip else limit)
      && forall i :: 0 <= i < |r| ==> skip + i < |f| && r[i] == f[skip + i]
  {
    var f, skip, limit := InCategory(menu, CategoryOf(categoryQ)), Skip(pageQ, limitQ), LimitOf(limitQ);
    assert skip == PageOf(pageQ) * limit;
    var r := SkipLimit(f, skip, limit);
    assert MenuPage(menu, pageQ, limitQ, categoryQ) == r;
  }

  /** Every item of a page lies in the requested category. */
  lemma PageInCategory(menu: seq<Doc<MenuItem>>, pageQ: Option<string>, limitQ: Option<string>, category: string)
    requires category != []
    ensures forall i :: 0 <= i < |MenuPage(menu, pageQ, limitQ, Some(category))| ==>
      MenuPage(menu, pageQ, limitQ, Some(category))[i].body.category == category
  {
    var f := InCategory(menu, Some(category));
    var skip, limit := Skip(pageQ, limitQ), LimitOf(limitQ);
    var r := SkipLimit(f, skip, limit);
    assert MenuPage(menu, pageQ, limitQ, Some(category)) == r;
    SkipLimitWithin(f, skip, limit);
    assert forall i :: 0 <= i < |r| ==> r[i] in f;
  }

  /** `page=0`, an absent page and `page=1` all ask for the same items. */
  lemma PageZeroIsPageOne(menu: seq<Doc<MenuItem>>, limitQ: Option<string>, categoryQ: Option<string>)
    ensures MenuPage(menu, Some("0"), limitQ, categoryQ) == MenuPage(menu, None, limitQ, categoryQ)
    ensures MenuPage(menu, Some("1"), limitQ, categoryQ) == MenuPage(menu, None, limitQ, categoryQ)
  {
    ParseDecimal(0, "");
    ParseDecimal(1, "");
    assert Decimal(0) + "" == "0";
    assert Decimal(1) + "" == "1";
  }

  /**
    Because the page defaults to 1 and `skip` is `page * limit`, a positive
    limit never serves any of the first `limit` items of the filtered menu,
    whatever page is asked for.
   */
  lemma FirstItemsNeverServed(menu: seq<Doc<MenuItem>>, pageQ: Option<string>, limitQ: Option<string>, categoryQ: Option<string>)
    requires UniqueBy(menu, (d: Doc<MenuItem>) => d.id)
    requires LimitOf(limitQ) > 0
    ensures forall i, k ::
      0 <= i < |MenuPage(menu, pageQ, limitQ, categoryQ)| && 0 <= k < LimitOf(limitQ) && k < |InCategory(menu, CategoryOf(categoryQ))|
      ==>
      MenuPage(menu, pageQ, limitQ, categoryQ)[i] != InCategory(menu, CategoryOf(categoryQ))[k]
  {
    var c := CategoryOf(categoryQ);
    var f := InCategory(menu, c);
    if c.Some? {
      FilterKeepsUniqueBy(menu, CategoryFilter(c), (d: Doc<MenuItem>) => d.id);
    }
    var skip, limit := Skip(pageQ, limitQ), LimitOf(limitQ);
    assert MenuPage(menu, pageQ, limitQ, categoryQ) == SkipLimit(f, skip, limit);
    SkipLimitAvoidsSkipped(f, skip, limit);
  }
}
