/**
 * The main screen's search results: how the server's product list is turned
 * into one text with a link marker after every product plus a map from icon
 * keys to product urls, and how the screen splits that text back apart and
 * attaches one link icon to every part but the last.
 */
module SearchResults {
  import opened Wrappers

  /** One entry of the server's `product_info` list. */
  datatype ProductInfo = ProductInfo(name: string, price: string, url: string)

  /** The link marker appended after every product (one character here). */
  const LinkMarker: char := '🔗'

  /** The lines shown for a product: its name and its price. */
  function Heading(p: ProductInfo): string
  {
    p.name + "\n" + p.price + "\n"
  }

  /** What one product adds to the text: its heading, the marker, a blank line. */
  function Entry(p: ProductInfo): string
  {
    Heading(p) + [LinkMarker] + "\n\n"
  }

  /** The whole formatted text: the products' entries in list order. */
  function FormattedText(ps: seq<ProductInfo>): string
  {
    if ps == [] then "" else Entry(ps[0]) + FormattedText(ps[1..])
  }

  /** No product name or price contains the link marker. */
  predicate NoMarker(ps: seq<ProductInfo>)
  {
    forall i :: 0 <= i < |ps| ==> LinkMarker !in Heading(ps[i])
  }

  // ---------------------------------------------------------------------
  // Icon keys: "icon_" followed by the index in decimal.

  function Digit(d: nat): (c: char)
    requires d < 10
  {
    (48 + d) as char
  }

  /** Decimal rendering of a non-negative index, as Kotlin's string template does. */
  function NatToString(n: nat): (s: string)
    ensures |s| >= 1
    ensures n >= 10 ==> |s| >= 2
    ensures s[|s| - 1] == Digit(n % 10)
  {
    if n < 10 then [Digit(n)] else NatToString(n / 10) + [Digit(n % 10)]
  }

  /** The rendering consists of decimal digits only. */
  lemma {:induction false} NatToStringDigits(n: nat)
    ensures forall k :: 0 <= k < |NatToString(n)| ==> '0' <= NatToString(n)[k] <= '9'
  {
    if n >= 10 {
      NatToStringDigits(n / 10);
    }
  }

  /** Different indices print differently. */
  lemma {:induction false} NatToStringInjective(a: nat, b: nat)
    requires NatToString(a) == NatToString(b)
    ensures a == b
  {
    var s, t := NatToString(a), NatToString(b);
    assert a % 10 == b % 10 by {
      assert Digit(a % 10) == s[|s| - 1] == t[|t| - 1] == Digit(b % 10);
    }
    if a >= 10 || b >= 10 {
      assert a >= 10 && b >= 10 by {
        assert |s| == |t|;
      }
      assert NatToString(a / 10) == s[..|s| - 1] == t[..|t| - 1] == NatToString(b / 10);
      NatToStringInjective(a / 10, b / 10);
    }
  }

  /** The url map key of the icon at a given index. */
  function IconKey(i: nat): string
  {
    "icon_" + NatToString(i)
  }

  lemma IconKeyInjective(i: nat, j: nat)
    requires IconKey(i) == IconKey(j)
    ensures i == j
  {
    assert NatToString(i) == IconKey(i)[5..] == IconKey(j)[5..] == NatToString(j);
    NatToStringInjective(i, j);
  }

  /** The url map built while walking the products: `icon_<i> := url_i`, in order. */
  function IconLinks(ps: seq<ProductInfo>): map<string, string>
  {
    if ps == [] then map[]
    else IconLinks(ps[..|ps| - 1])[IconKey(|ps| - 1) := ps[|ps| - 1].url]
  }

  /** The url map has exactly the keys icon_0 .. icon_{n-1}. */
  lemma {:induction false} IconLinksDomain(ps: seq<ProductInfo>)
    ensures forall k :: k in IconLinks(ps) ==> exists i :: 0 <= i < |ps| && k == IconKey(i)
    ensures forall i :: 0 <= i < |ps| ==> IconKey(i) in IconLinks(ps)
  {
    if ps != [] {
      var n := |ps| - 1;
      IconLinksDomain(ps[..n]);
      forall i | 0 <= i < n ensures IconKey(i) in IconLinks(ps) {
        assert IconKey(i) in IconLinks(ps[..n]);
      }
    }
  }

  /** Under icon_i the url map holds product i's url. */
  lemma {:induction false} IconLinksValues(ps: seq<ProductInfo>)
    ensures forall i :: 0 <= i < |ps| ==> IconKey(i) in IconLinks(ps) && IconLinks(ps)[IconKey(i)] == ps[i].url
  {
    IconLinksDomain(ps);
    if ps != [] {
      var n := |ps| - 1;
      var front := ps[..n];
      IconLinksValues(front);
      forall i | 0 <= i < n
        ensures IconLinks(ps)[IconKey(i)] == ps[i].url
      {
        if IconKey(i) == IconKey(n) {
          IconKeyInjective(i, n);
        }
        assert IconLinks(ps)[IconKey(i)] == IconLinks(front)[IconKey(i)];
      }
    }
  }

  /** One entry per product: no later product overwrites an earlier one. */
  lemma {:induction false} IconLinksSize(ps: seq<ProductInfo>)
    ensures |IconLinks(ps)| == |ps|
  {
    if ps != [] {
      var n := |ps| - 1;
      var front := ps[..n];
      IconLinksSize(front);
      IconLinksDomain(front);
      if IconKey(n) in IconLinks(front) {
        var i :| 0 <= i < n && IconKey(n) == IconKey(i);
        IconKeyInjective(n, i);
      }
    }
  }

  lemma {:induction false} FormattedTextSnoc(ps: seq<ProductInfo>, p: ProductInfo)
    ensures FormattedText(ps + [p]) == FormattedText(ps) + Entry(p)
  {
    if ps == [] {
      assert ps + [p] == [p];
    } else {
      assert (ps + [p])[1..] == ps[1..] + [p];
      FormattedTextSnoc(ps[1..], p);
    }
  }

  /** The text is empty exactly when there are no products. */
  lemma FormattedTextEmpty(ps: seq<ProductInfo>)
    ensures FormattedText(ps) == "" <==> ps == []
  {
    if ps != [] {
      assert |FormattedText(ps)| >= |Entry(ps[0])| > 0;
    }
  }

  /** One more product extends the text by its entry and the map by its icon key. */
  lemma FormatStep(ps: seq<ProductInfo>, i: nat)
    requires i < |ps|
    ensures FormattedText(ps[..i + 1]) == FormattedText(ps[..i]) + Entry(ps[i])
    ensures IconLinks(ps[..i + 1]) == IconLinks(ps[..i])[IconKey(i) := ps[i].url]
  {
    assert ps[..i + 1] == ps[..i] + [ps[i]];
    assert ps[..i + 1][..i] == ps[..i];
    FormattedTextSnoc(ps[..i], ps[i]);
  }

  /**
   * `formatServerResponse`: walks the (possibly null) product list, appending
   * every product's entry to the text and recording its url under its icon key.
   */
  method FormatServerResponse(productInfo: Option<seq<ProductInfo>>)
    returns (text: string, urlMap: map<string, string>)
    ensures productInfo.None? ==> text == "" && urlMap == map[]
    ensures productInfo.Some? ==> text == FormattedText(productInfo.value)
    ensures productInfo.Some? ==> urlMap == IconLinks(productInfo.value)
  {
    var ps := if productInfo.Some? then productInfo.value else [];
    text := "";
    urlMap := map[];
    var index := 0;
    while index < |ps|
      invariant 0 <= index <= |ps|
      invariant text == FormattedText(ps[..index])
      invariant urlMap == IconLinks(ps[..index])
    {
      var product := ps[index];
      ghost var before := text;
      text := text + product.name + "\n";
      text := text + product.price + "\n";
      text := text + [LinkMarker] + "\n\n";
      assert text == before + Entry(product);
      urlMap := urlMap[IconKey(index) := product.url];
      FormatStep(ps, index);
      index := index + 1;
    }
    assert ps[..index] == ps;
  }

  // ---------------------------------------------------------------------
  // Splitting the text on the marker, as Kotlin's `split` does: every
  // occurrence cuts, and empty parts (also a trailing one) are kept.

  function Occurrences(s: string, d: char): nat
  {
    if s == [] then 0 else (if s[0] == d then 1 else 0) + Occurrences(s[1..], d)
  }

  /** Puts the parts back together with the delimiter between neighbours. */
  function Join(parts: seq<string>, d: char): string
    requires |parts| > 0
  {
    if |parts| == 1 then parts[0] else parts[0] + [d] + Join(parts[1..], d)
  }

  /** `s.split(d)`: n delimiters give n + 1 delimiter-free parts that join back to s. */
  function Split(s: string, d: char): (parts: seq<string>)
    ensures |parts| == Occurrences(s, d) + 1
    ensures forall i :: 0 <= i < |parts| ==> d !in parts[i]
    ensures Join(parts, d) == s
  {
    if s == [] then [""]
    else
      var rest := Split(s[1..], d);
      if s[0] == d then [""] + rest
      else
        assert |rest| == 1 || Join(rest, d) == rest[0] + [d] + Join(rest[1..], d);
        [[s[0]] + rest[0]] + rest[1..]
  }

  /** A delimiter-free prefix only lengthens the first part. */
  lemma {:induction false} SplitPrefix(a: string, b: string, d: char)
    requires d !in a
    ensures Split(a + b, d) == [a + Split(b, d)[0]] + Split(b, d)[1..]
  {
    if a == [] {
      var parts := Split(b, d);
      assert a + b == b;
      assert a + parts[0] == parts[0];
      assert [parts[0]] + parts[1..] == parts;
    } else {
      assert (a + b)[0] == a[0] && (a + b)[1..] == a[1..] + b;
      SplitPrefix(a[1..], b, d);
      assert [a[0]] + (a[1..] + Split(b, d)[0]) == a + Split(b, d)[0];
    }
  }

  /** Joining delimiter-free parts and splitting again gives the parts back. */
  lemma {:induction false} SplitJoin(parts: seq<string>, d: char)
    requires |parts| > 0
    requires forall i :: 0 <= i < |parts| ==> d !in parts[i]
    ensures Split(Join(parts, d), d) == parts
  {
    if |parts| == 1 {
      SplitPrefix(parts[0], "", d);
      assert parts[0] + "" == parts[0];
    } else {
      var tail := Join(parts[1..], d);
      SplitJoin(parts[1..], d);
      SplitPrefix(parts[0], [d] + tail, d);
      assert ([d] + tail)[1..] == tail;
      assert Split([d] + tail, d) == [""] + parts[1..];
      assert parts[0] + "" == parts[0];
      assert parts[0] + [d] + tail == parts[0] + ([d] + tail);
      assert parts == [parts[0]] + parts[1..];
    }
  }

  /** The parts the screen should see: headings, each after the previous blank line. */
  function Pieces(lead: string, ps: seq<ProductInfo>): seq<string>
    decreases ps
  {
    if ps == [] then [lead] else [lead + Heading(ps[0])] + Pieces("\n\n", ps[1..])
  }

  /** A marker at the front cuts off an empty first part. */
  lemma SplitAfterMarker(x: string, d: char)
    ensures Split([d] + x, d) == [""] + Split(x, d)
  {
    assert ([d] + x)[1..] == x;
  }

  lemma NoMarkerTail(ps: seq<ProductInfo>)
    requires ps != [] && NoMarker(ps)
    ensures NoMarker(ps[1..])
  {
    forall i | 0 <= i < |ps[1..]| ensures LinkMarker !in Heading(ps[1..][i]) {
      assert ps[1..][i] == ps[i + 1];
    }
  }

  /** The formatted text splits into the products' headings, each after a blank line but the first. */
  lemma {:induction false} SplitFormatted(lead: string, ps: seq<ProductInfo>)
    requires LinkMarker !in lead
    requires NoMarker(ps)
    ensures Split(lead + FormattedText(ps), LinkMarker) == Pieces(lead, ps)
    decreases ps
  {
    if ps == [] {
      SplitPrefix(lead, "", LinkMarker);
      assert lead + "" == lead;
    } else {
      var h := lead + Heading(ps[0]);
      var rest := "\n\n" + FormattedText(ps[1..]);
      assert LinkMarker !in Heading(ps[0]);
      assert LinkMarker !in h;
      assert lead + FormattedText(ps) == h + ([LinkMarker] + rest);
      NoMarkerTail(ps);
      SplitFormatted("\n\n", ps[1..]);
      SplitAfterMarker(rest, LinkMarker);
      SplitPrefix(h, [LinkMarker] + rest, LinkMarker);
      assert h + "" == h;
    }
  }

  lemma {:induction false} PiecesShape(lead: string, ps: seq<ProductInfo>)
    ensures |Pieces(lead, ps)| == |ps| + 1
    ensures Pieces(lead, ps)[0] == if ps == [] then lead else lead + Heading(ps[0])
    ensures forall i :: 0 < i < |ps| ==> Pieces(lead, ps)[i] == "\n\n" + Heading(ps[i])
    ensures Pieces(lead, ps)[|ps|] == if ps == [] then lead else "\n\n"
    decreases ps
  {
    if ps != [] {
      PiecesShape("\n\n", ps[1..]);
      var tail := Pieces("\n\n", ps[1..]);
      forall i | 0 < i < |ps|
        ensures Pieces(lead, ps)[i] == "\n\n" + Heading(ps[i])
      {
        assert Pieces(lead, ps)[i] == tail[i - 1];
        assert ps[1..][i - 1] == ps[i];
      }
    }
  }

  /**
   * With marker-free names and prices, the formatted text of n products holds
   * exactly n markers and splits into n + 1 parts: part 0 is product 0's
   * heading, part i (0 < i < n) is a blank line and product i's heading, and
   * the last part is the trailing blank line.
   */
  lemma FormattedSplitParts(ps: seq<ProductInfo>)
    requires NoMarker(ps)
    ensures Occurrences(FormattedText(ps), LinkMarker) == |ps|
    ensures |Split(FormattedText(ps), LinkMarker)| == |ps| + 1
    ensures ps != [] ==> Split(FormattedText(ps), LinkMarker)[0] == Heading(ps[0])
    ensures forall i :: 0 < i < |ps| ==> Split(FormattedText(ps), LinkMarker)[i] == "\n\n" + Heading(ps[i])
    ensures ps != [] ==> Split(FormattedText(ps), LinkMarker)[|ps|] == "\n\n"
  {
    SplitFormatted("", ps);
    assert "" + FormattedText(ps) == FormattedText(ps);
    PiecesShape("", ps);
    assert ps != [] ==> "" + Heading(ps[0]) == Heading(ps[0]);
  }

  /**
   * Every icon the screen draws (index i below the number of parts minus one)
   * looks up a key present in the url map, and that key leads to product i.
   */
  lemma EveryIconResolves(ps: seq<ProductInfo>)
    requires NoMarker(ps)
    ensures |Split(FormattedText(ps), LinkMarker)| - 1 == |ps|
    ensures forall i :: 0 <= i < |Split(FormattedText(ps), LinkMarker)| - 1 ==>
              IconKey(i) in IconLinks(ps) && IconLinks(ps)[IconKey(i)] == ps[i].url
  {
    FormattedSplitParts(ps);
    IconLinksValues(ps);
  }

  lemma {:induction false} OccurrencesConcat(a: string, b: string, d: char)
    ensures Occurrences(a + b, d) == Occurrences(a, d) + Occurrences(b, d)
  {
    if a == [] {
      assert a + b == b;
    } else {
      assert (a + b)[0] == a[0] && (a + b)[1..] == a[1..] + b;
      OccurrencesConcat(a[1..], b, d);
    }
  }

  lemma {:induction false} OccurrencesPositive(s: string, d: char)
    requires d in s
    ensures Occurrences(s, d) >= 1
  {
    if s[0] != d {
      OccurrencesPositive(s[1..], d);
    }
  }

  /** Every product adds at least its own marker; a marker in a name or price adds more. */
  lemma {:induction false} FormattedOccurrences(ps: seq<ProductInfo>)
    ensures Occurrences(FormattedText(ps), LinkMarker) >= |ps|
    ensures !NoMarker(ps) ==> Occurrences(FormattedText(ps), LinkMarker) > |ps|
  {
    if ps != [] {
      var h := Heading(ps[0]);
      FormattedOccurrences(ps[1..]);
      assert Entry(ps[0]) == h + ([LinkMarker] + "\n\n");
      OccurrencesConcat(h, [LinkMarker] + "\n\n", LinkMarker);
      OccurrencesConcat(Entry(ps[0]), FormattedText(ps[1..]), LinkMarker);
      assert Occurrences("\n\n", LinkMarker) == 0;
      assert ([LinkMarker] + "\n\n")[1..] == "\n\n";
      assert Occurrences([LinkMarker] + "\n\n", LinkMarker) == 1;
      if !NoMarker(ps) {
        var i :| 0 <= i < |ps| && LinkMarker in Heading(ps[i]);
        if i == 0 {
          OccurrencesPositive(h, LinkMarker);
        } else {
          assert ps[1..][i - 1] == ps[i];
          assert !NoMarker(ps[1..]);
        }
      }
    }
  }

  /**
   * The converse of EveryIconResolves: when some name or price contains the
   * marker, the text splits into more parts than products plus one, so icons
   * are drawn for indices past the last product, and none of their keys is in
   * the url map.
   */
  lemma MarkerInNameMisaligns(ps: seq<ProductInfo>)
    requires !NoMarker(ps)
    ensures |Split(FormattedText(ps), LinkMarker)| > |ps| + 1
    ensures forall i: nat :: |ps| <= i ==> IconKey(i) !in IconLinks(ps)
  {
    FormattedOccurrences(ps);
    IconLinksDomain(ps);
    forall i: nat | |ps| <= i
      ensures IconKey(i) !in IconLinks(ps)
    {
      if IconKey(i) in IconLinks(ps) {
        var j :| 0 <= j < |ps| && IconKey(i) == IconKey(j);
        IconKeyInjective(i, j);
      }
    }
  }

  // ---------------------------------------------------------------------
  // Rendering the result area.

  /** The link icon drawn after a part; clicking it opens the looked-up url, if any. */
  datatype Icon = NoIcon | LinkIcon(opens: Option<string>)

  /** One part of the text, drawn as a text block and possibly followed by an icon. */
  datatype Row = Row(text: string, icon: Icon)

  /** What the result area shows. */
  datatype ResultView = Spinner | Results(rows: seq<Row>) | Nothing

  function Lookup(m: map<string, string>, k: string): Option<string>
  {
    if k in m then Some(m[k]) else None
  }

  /** The rows show the parts in order; every part but the last carries the icon for its index. */
  ghost predicate ShowsParts(rows: seq<Row>, parts: seq<string>, urlMap: map<string, string>)
  {
    && |rows| == |parts|
    && (forall i :: 0 <= i < |rows| ==> rows[i].text == parts[i])
    && (forall i :: 0 <= i < |rows| ==>
          rows[i].icon == if i < |parts| - 1 then LinkIcon(Lookup(urlMap, IconKey(i))) else NoIcon)
  }

  /**
   * The result area of the main screen: a spinner while loading; otherwise,
   * when the formatted text is non-empty, its parts between the markers, each
   * but the last followed by the icon whose key is `icon_<index>`; else nothing.
   */
  method ResultArea(isLoading: bool, text: string, urlMap: map<string, string>)
    returns (view: ResultView)
    ensures isLoading ==> view == Spinner
    ensures !isLoading && text == "" ==> view == Nothing
    ensures !isLoading && text != "" ==> view.Results? && ShowsParts(view.rows, Split(text, LinkMarker), urlMap)
  {
    if isLoading {
      return Spinner;
    }
    if text == "" {
      return Nothing;
    }
    var textParts := Split(text, LinkMarker);
    var rows: seq<Row> := [];
    var index := 0;
    while index < |textParts|
      invariant 0 <= index <= |textParts|
      invariant |rows| == index
      invariant forall i :: 0 <= i < index ==> rows[i].text == textParts[i]
      invariant forall i :: 0 <= i < index ==>
                  rows[i].icon == if i < |textParts| - 1 then LinkIcon(Lookup(urlMap, IconKey(i))) else NoIcon
    {
      var icon := NoIcon;
      if index < |textParts| - 1 {
        icon := LinkIcon(Lookup(urlMap, IconKey(index)));
      }
      rows := rows + [Row(textParts[index], icon)];
      index := index + 1;
    }
    return Results(rows);
  }

  /**
   * End to end: when the rows show a formatted response of marker-free
   * products, there is one row per product plus a last one; row i shows
   * product i's heading and its icon opens product i's url; the last row has
   * no icon.
   */
  lemma {:induction false} ShownLinksMatchProducts(ps: seq<ProductInfo>, rows: seq<Row>)
    requires NoMarker(ps)
    requires ShowsParts(rows, Split(FormattedText(ps), LinkMarker), IconLinks(ps))
    ensures |rows| == |ps| + 1
    ensures forall i :: 0 <= i < |ps| ==> rows[i].icon == LinkIcon(Some(ps[i].url))
    ensures forall i :: 0 <= i < |ps| ==> rows[i].text == (if i == 0 then "" else "\n\n") + Heading(ps[i])
    ensures rows[|ps|].icon == NoIcon
  {
    FormattedSplitParts(ps);
    IconLinksValues(ps);
    forall i | 0 <= i < |ps|
      ensures rows[i].icon == LinkIcon(Some(ps[i].url))
    {
      assert Lookup(IconLinks(ps), IconKey(i)) == Some(ps[i].url);
    }
  }
}
