/** The product table: `escapeHtml`, the availability rule, and the
    contents of each row that `renderRow` emits. The HTML markup around the
    cells is not modelled; a row is the record of what it shows. */
module Render {
  import opened Wrappers
  import opened Catalog

  /** `s.replaceAll(c, rep)` for a one-character pattern. */
  function ReplaceAll(s: string, c: char, rep: string): (r: string)
    ensures c !in s ==> r == s
    ensures c !in rep ==> c !in r
  {
    if s == [] then []
    else (if s[0] == c then rep else [s[0]]) + ReplaceAll(s[1..], c, rep)
  }

  /** Replacing in a concatenation replaces in each part. */
  lemma {:induction false} ReplaceAllAppend(a: string, b: string, c: char, rep: string)
    ensures ReplaceAll(a + b, c, rep) == ReplaceAll(a, c, rep) + ReplaceAll(b, c, rep)
  {
    if a == [] {
      assert a + b == b;
    } else {
      assert (a + b)[0] == a[0];
      assert (a + b)[1..] == a[1..] + b;
      ReplaceAllAppend(a[1..], b, c, rep);
      var h := if a[0] == c then rep else [a[0]];
      assert h + (ReplaceAll(a[1..], c, rep) + ReplaceAll(b, c, rep))
          == (h + ReplaceAll(a[1..], c, rep)) + ReplaceAll(b, c, rep);
    }
  }

  /** `escapeHtml`: every one of `&`, `<`, `>`, `"`, `'` becomes its entity
      exactly once, so the result decodes back to the text and holds nothing
      that could open a tag or close an attribute. */
  function EscapeHtml(text: string): (r: string)
    ensures r == EscapeAll(text)
    ensures Unescape(r) == text
    ensures '<' !in r && '>' !in r && '"' !in r && '\'' !in r
  {
    PassesArePerChar(text);
    UnescapeEscapeAll(text);
    EscapeAllNoMarkup(text);
    EscapePasses(text)
  }

  /** The five `replaceAll` passes as written, `&` first so that the
      entities written by the later passes are not escaped again. */
  function EscapePasses(text: string): string {
    ReplaceAll(ReplaceAll(ReplaceAll(ReplaceAll(ReplaceAll(
      text, '&', "&amp;"), '<', "&lt;"), '>', "&gt;"), '"', "&quot;"), '\'', "&#039;")
  }

  /** The entity for one character: the reference the passes implement. */
  function EscapeChar(c: char): (r: string)
    ensures |r| >= 1
    ensures r[0] == '&' <==> c in "&<>\"'"
    ensures c !in "&<>\"'" ==> r == [c]
  {
    if c == '&' then "&amp;"
    else if c == '<' then "&lt;"
    else if c == '>' then "&gt;"
    else if c == '"' then "&quot;"
    else if c == '\'' then "&#039;"
    else [c]
  }

  /** Every character replaced by its entity, in one left-to-right pass. */
  function EscapeAll(s: string): (r: string)
    ensures |r| >= |s|
  {
    if s == [] then [] else EscapeChar(s[0]) + EscapeAll(s[1..])
  }

  lemma ReplaceSingle(c: char, x: char, rep: string)
    ensures ReplaceAll([c], x, rep) == if c == x then rep else [c]
  {
    assert [c][1..] == [];
  }

  /** The five passes on one character give that character's entity. */
  lemma EscapeOne(c: char)
    ensures EscapePasses([c]) == EscapeChar(c)
  {
    ReplaceSingle(c, '&', "&amp;");
    if c == '&' {
      assert '<' !in "&amp;" && '>' !in "&amp;" && '"' !in "&amp;" && '\'' !in "&amp;";
    } else {
      ReplaceSingle(c, '<', "&lt;");
      if c == '<' {
        assert '>' !in "&lt;" && '"' !in "&lt;" && '\'' !in "&lt;";
      } else {
        ReplaceSingle(c, '>', "&gt;");
        if c == '>' {
          assert '"' !in "&gt;" && '\'' !in "&gt;";
        } else {
          ReplaceSingle(c, '"', "&quot;");
          if c == '"' {
            assert '\'' !in "&quot;";
          } else {
            ReplaceSingle(c, '\'', "&#039;");
          }
        }
      }
    }
  }

  /** The five passes are the same as escaping character by character. */
  lemma {:induction false} PassesArePerChar(s: string)
    ensures EscapePasses(s) == EscapeAll(s)
  {
    if s != [] {
      var h, t := [s[0]], s[1..];
      assert s == h + t;
      var a1, b1 := ReplaceAll(h, '&', "&amp;"), ReplaceAll(t, '&', "&amp;");
      ReplaceAllAppend(h, t, '&', "&amp;");
      var a2, b2 := ReplaceAll(a1, '<', "&lt;"), ReplaceAll(b1, '<', "&lt;");
      ReplaceAllAppend(a1, b1, '<', "&lt;");
      var a3, b3 := ReplaceAll(a2, '>', "&gt;"), ReplaceAll(b2, '>', "&gt;");
      ReplaceAllAppend(a2, b2, '>', "&gt;");
      var a4, b4 := ReplaceAll(a3, '"', "&quot;"), ReplaceAll(b3, '"', "&quot;");
      ReplaceAllAppend(a3, b3, '"', "&quot;");
      ReplaceAllAppend(a4, b4, '\'', "&#039;");
      EscapeOne(s[0]);
      PassesArePerChar(t);
    }
  }

  /** Escaping character by character leaves no `<`, `>`, `"` or `'`. */
  lemma {:induction false} EscapeAllNoMarkup(s: string)
    ensures var r := EscapeAll(s); '<' !in r && '>' !in r && '"' !in r && '\'' !in r
  {
    if s != [] {
      EntityNoMarkup(s[0]);
      EscapeAllNoMarkup(s[1..]);
      assert EscapeAll(s) == EscapeChar(s[0]) + EscapeAll(s[1..]);
    }
  }

  lemma EntityNoMarkup(c: char)
    ensures var e := EscapeChar(c); '<' !in e && '>' !in e && '"' !in e && '\'' !in e
  {
  }

  /** Text without any of the five characters is left as it is. */
  lemma SafeTextUnchanged(s: string)
    requires forall i :: 0 <= i < |s| ==> s[i] !in "&<>\"'"
    ensures EscapeHtml(s) == s
  {
    assert '&' !in s && '<' !in s && '>' !in s && '"' !in s && '\'' !in s;
  }

  predicate StartsWith(s: string, prefix: string) {
    |prefix| <= |s| && s[..|prefix|] == prefix
  }

  /** Decodes the five entities `escapeHtml` writes. */
  function Unescape(s: string): string
    decreases |s|
  {
    if s == [] then []
    else if s[0] != '&' then [s[0]] + Unescape(s[1..])
    else if StartsWith(s, "&amp;") then "&" + Unescape(s[5..])
    else if StartsWith(s, "&lt;") then "<" + Unescape(s[4..])
    else if StartsWith(s, "&gt;") then ">" + Unescape(s[4..])
    else if StartsWith(s, "&quot;") then "\"" + Unescape(s[6..])
    else if StartsWith(s, "&#039;") then "'" + Unescape(s[6..])
    else [s[0]] + Unescape(s[1..])
  }

  lemma UnescapeChar(c: char, rest: string)
    ensures Unescape(EscapeChar(c) + rest) == [c] + Unescape(rest)
  {
    var e := EscapeChar(c);
    var s := e + rest;
    assert s[..|e|] == e && s[|e|..] == rest;
    if c == '&' {
      assert StartsWith(s, "&amp;");
    } else if c == '<' {
      assert !StartsWith(s, "&amp;") by { assert s[1] != "&amp;"[1]; }
      assert StartsWith(s, "&lt;");
    } else if c == '>' {
      assert !StartsWith(s, "&amp;") by { assert s[1] != "&amp;"[1]; }
      assert !StartsWith(s, "&lt;") by { assert s[1] != "&lt;"[1]; }
      assert StartsWith(s, "&gt;");
    } else if c == '"' {
      assert !StartsWith(s, "&amp;") by { assert s[1] != "&amp;"[1]; }
      assert !StartsWith(s, "&lt;") by { assert s[1] != "&lt;"[1]; }
      assert !StartsWith(s, "&gt;") by { assert s[1] != "&gt;"[1]; }
      assert StartsWith(s, "&quot;");
    } else if c == '\'' {
      assert !StartsWith(s, "&amp;") by { assert s[1] != "&amp;"[1]; }
      assert !StartsWith(s, "&lt;") by { assert s[1] != "&lt;"[1]; }
      assert !StartsWith(s, "&gt;") by { assert s[1] != "&gt;"[1]; }
      assert !StartsWith(s, "&quot;") by { assert s[1] != "&quot;"[1]; }
      assert StartsWith(s, "&#039;");
    } else {
      assert s[0] == c && s[1..] == rest;
    }
  }

  /** Escaping character by character loses nothing: the entities decode
      back to the text. */
  lemma {:induction false} UnescapeEscapeAll(s: string)
    ensures Unescape(EscapeAll(s)) == s
  {
    if s != [] {
      UnescapeChar(s[0], EscapeAll(s[1..]));
      UnescapeEscapeAll(s[1..]);
      assert s == [s[0]] + s[1..];
    }
  }

  // ---- rows ----

  /** `product.quantity > 0`: the status shown and whether "buy" is enabled. */
  predicate Available(p: Product) {
    p.quantity > 0
  }

  /** The status agrees with the purchase rule: a listed product is shown
      available exactly when buying one unit of it would succeed. */
  lemma AvailableIffBuyable(ps: seq<Product>, id: int)
    requires HasId(ps, id)
    ensures Available(ps[FindIndex(ps, id)]) <==> Purchase(ps, id, Some(1)).Stocked?
  {
  }

  const AvailableLabel := "Disponível"
  const UnavailableLabel := "Indisponível"
  const EmptyTableText := "Nenhum produto cadastrado."

  /** The thumbnail: its source is the stored data URL as it is, its alt
      text the escaped name. */
  datatype Thumb = Thumb(src: string, alt: string)

  /** What one `<tr>` shows, cell by cell. */
  datatype Row = Row(
    id: int, name: string, thumb: Option<Thumb>, filamentType: string, colors: string,
    weight: real, dimensions: string, price: real, quantity: int, status: string,
    buyEnabled: bool)

  /** The table body: the placeholder row, or one row per product. */
  datatype Table = Placeholder | Rows(rows: seq<Row>)

  /** `renderRow`: the text fields are escaped, the status and the buy
      button follow availability, the thumbnail appears only for a
      non-empty image. */
  function RenderRow(p: Product): (r: Row)
    ensures r.id == p.id && r.quantity == p.quantity
    ensures r.buyEnabled <==> Available(p)
    ensures r.status == if Available(p) then AvailableLabel else UnavailableLabel
    ensures r.thumb.Some? <==> p.image.Some? && p.image.value != ""
    ensures r.name == EscapeHtml(p.name) && r.filamentType == EscapeHtml(p.filamentType)
            && r.colors == EscapeHtml(p.colors) && r.dimensions == EscapeHtml(p.dimensions)
    ensures r.weight == p.weight && r.price == p.price
    ensures r.thumb.Some? ==> r.thumb.value == Thumb(p.image.value, EscapeHtml(p.name))
    ensures Unescape(r.name) == p.name && Unescape(r.dimensions) == p.dimensions
    ensures '<' !in r.name && '<' !in r.filamentType && '<' !in r.colors && '<' !in r.dimensions
  {
    var available := p.quantity > 0;
    Row(p.id, EscapeHtml(p.name),
        if p.image.Some? && p.image.value != "" then Some(Thumb(p.image.value, EscapeHtml(p.name)))
        else None,
        EscapeHtml(p.filamentType), EscapeHtml(p.colors), p.weight,
        EscapeHtml(p.dimensions), p.price, p.quantity,
        if available then AvailableLabel else UnavailableLabel,
        available)
  }

  /** `renderProducts`: the placeholder for an empty list, otherwise the
      rows in list order. */
  function RenderProducts(ps: seq<Product>): (t: Table)
    ensures t.Placeholder? <==> ps == []
    ensures t.Rows? ==> |t.rows| == |ps| && forall i :: 0 <= i < |ps| ==> t.rows[i] == RenderRow(ps[i])
  {
    if ps == [] then Placeholder
    else Rows(seq(|ps|, i requires 0 <= i < |ps| => RenderRow(ps[i])))
  }

  /** After a purchase the bought product's row offers "buy" exactly when
      some stock is left, and every other row is as before. */
  lemma PurchaseShownInTable(ps: seq<Product>, id: int, qty: Option<nat>)
    requires Purchase(ps, id, qty).Stocked?
    ensures var t := RenderProducts(Purchase(ps, id, qty).products);
            var i := FindIndex(ps, id);
            && t.Rows? && (t.rows[i].buyEnabled <==> qty.value < ps[i].quantity)
            && forall j :: 0 <= j < |ps| && j != i ==> t.rows[j] == RenderRow(ps[j])
  {
  }

  /** A restock leaves the product available to buy. */
  lemma RestockEnablesBuy(ps: seq<Product>, id: int, qty: Option<nat>)
    requires Restock(ps, id, qty).Stocked? && ps[FindIndex(ps, id)].quantity >= 0
    ensures var t := RenderProducts(Restock(ps, id, qty).products);
            t.Rows? && t.rows[FindIndex(ps, id)].buyEnabled
  {
  }
}
