/** The product records and the five store operations of the inventory
    (create, update, delete, purchase, restock) as functions of the product
    list, with the invariant the store keeps and the id-counter recovery of
    start-up. The `Store` class applies these to its state in place. */
module Catalog {
  import opened Wrappers
  import opened JsStrings
  import opened Validation

  /** A stored product: the validated form data, the id given at creation
      and an optional image data URL. `quantity` is an `int` because a list
      read back from storage is not re-validated. */
  datatype Product = Product(
    id: int, name: string, filamentType: string, colors: string, weight: real,
    dimensions: string, price: real, quantity: int, description: string,
    image: Option<string>)

  /** The form data a product carries. */
  function DataOf(p: Product): ProductData
    requires p.quantity >= 0
  {
    ProductData(p.name, p.filamentType, p.colors, p.weight, p.dimensions, p.price,
                p.quantity, p.description)
  }

  /** `{ id, ...data }`, with `imageDataUrl` only when an image was read. */
  function NewProduct(id: int, d: ProductData, image: Option<string>): (p: Product)
    ensures p.id == id && p.image == image
    ensures p.quantity >= 0 && DataOf(p) == d
  {
    Product(id, d.name, d.filamentType, d.colors, d.weight, d.dimensions, d.price,
            d.quantity, d.description, image)
  }

  /** What an edit does to the stored image. */
  datatype ImageChange = KeepImage | ClearImage | SetImage(url: string)

  /** The submit handler's image rule: the "remove image" box wins, else a
      newly read (non-empty) data URL replaces the image, else it is kept. */
  function ImageChangeFor(removeImage: bool, newImage: Option<string>): (c: ImageChange)
    ensures c == ClearImage <==> removeImage
    ensures c.SetImage? <==> !removeImage && newImage.Some? && newImage.value != ""
    ensures c.SetImage? ==> c.url == newImage.value
  {
    if removeImage then ClearImage
    else if newImage.Some? && newImage.value != "" then SetImage(newImage.value)
    else KeepImage
  }

  /** The submit handler's image rule for a new product: only a newly read,
      non-empty data URL is stored; otherwise the product has no image. */
  function NewImageFor(newImage: Option<string>): (r: Option<string>)
    ensures r.Some? <==> newImage.Some? && newImage.value != ""
    ensures r.Some? ==> r == newImage
  {
    if newImage.Some? && newImage.value != "" then newImage else None
  }

  /** The data `updateProduct` spreads over a product: every form field, and
      possibly `imageDataUrl`. */
  datatype Patch = Patch(data: ProductData, image: ImageChange)

  /** `{ ...product, ...patch }`: the id survives, every form field is
      overwritten, the image follows the change. */
  function Merge(p: Product, patch: Patch): (r: Product)
    ensures r.id == p.id
    ensures r.quantity >= 0 && DataOf(r) == patch.data
    ensures r.image == match patch.image
                       case KeepImage => p.image
                       case ClearImage => None
                       case SetImage(url) => Some(url)
  {
    var d := patch.data;
    Product(p.id, d.name, d.filamentType, d.colors, d.weight, d.dimensions, d.price,
            d.quantity, d.description,
            match patch.image
            case KeepImage => p.image
            case ClearImage => None
            case SetImage(url) => Some(url))
  }

  predicate HasId(ps: seq<Product>, id: int) {
    exists i :: 0 <= i < |ps| && ps[i].id == id
  }

  /** `findIndex(p => p.id === id)`: the first position holding `id`, or -1. */
  function FindIndex(ps: seq<Product>, id: int): (r: int)
    ensures -1 <= r < |ps|
    ensures r == -1 <==> !HasId(ps, id)
    ensures r >= 0 ==> ps[r].id == id && forall j :: 0 <= j < r ==> ps[j].id != id
  {
    if ps == [] then -1
    else if ps[0].id == id then 0
    else
      var k := FindIndex(ps[1..], id);
      if k == -1 then
        assert forall i :: 0 < i < |ps| ==> ps[i] == ps[1..][i - 1];
        -1
      else k + 1
  }

  /** Two lists with the same ids in the same places find the same index. */
  lemma {:induction false} FindIndexSameIds(ps: seq<Product>, qs: seq<Product>, id: int)
    requires |ps| == |qs|
    requires forall k :: 0 <= k < |ps| ==> ps[k].id == qs[k].id
    ensures FindIndex(ps, id) == FindIndex(qs, id)
  {
    if ps != [] && ps[0].id != id {
      FindIndexSameIds(ps[1..], qs[1..], id);
    }
  }

  /** The store's invariant: the counter is above every id, ids are
      positive and distinct, quantities, weights and prices are not negative. */
  predicate WellFormed(ps: seq<Product>, nextId: int) {
    && nextId >= 1
    && (forall i :: 0 <= i < |ps| ==>
          && 1 <= ps[i].id < nextId && ps[i].quantity >= 0
          && ps[i].weight >= 0.0 && ps[i].price >= 0.0)
    && (forall i, j :: 0 <= i < j < |ps| ==> ps[i].id != ps[j].id)
  }

  // ---- createProduct ----

  /** `createProduct`: the new product gets the counter's value as id and is
      appended; the counter moves on by one. */
  function Create(ps: seq<Product>, nextId: int, d: ProductData, image: Option<string>)
    : (r: (seq<Product>, int))
    ensures r.1 == nextId + 1
    ensures |r.0| == |ps| + 1 && r.0[..|ps|] == ps
    ensures r.0[|ps|] == NewProduct(nextId, d, image)
  {
    (ps + [NewProduct(nextId, d, image)], nextId + 1)
  }

  /** A created id is new: above every id in a well-formed list, and the
      invariant still holds for valid data. */
  lemma CreateFreshId(ps: seq<Product>, nextId: int, d: ProductData, image: Option<string>)
    requires WellFormed(ps, nextId)
    ensures forall p :: p in ps ==> p.id < nextId
    ensures !HasId(ps, nextId)
    ensures ValidData(d) ==> WellFormed(Create(ps, nextId, d, image).0, Create(ps, nextId, d, image).1)
  {
    var r := Create(ps, nextId, d, image).0;
    assert forall i :: 0 <= i < |ps| ==> r[i] == ps[i];
  }

  // ---- updateProduct ----

  /** `updateProduct`: None (false) when the id is absent; otherwise the
      first product with the id is replaced by its merge with the patch. */
  function Update(ps: seq<Product>, id: int, patch: Patch): (r: Option<seq<Product>>)
    ensures r.Some? <==> HasId(ps, id)
    ensures r.Some? ==> var i := FindIndex(ps, id);
              && |r.value| == |ps| && r.value[i] == Merge(ps[i], patch)
              && forall j :: 0 <= j < |ps| && j != i ==> r.value[j] == ps[j]
  {
    var i := FindIndex(ps, id);
    if i == -1 then None else Some(ps[i := Merge(ps[i], patch)])
  }

  lemma UpdateKeepsInvariant(ps: seq<Product>, nextId: int, id: int, patch: Patch)
    requires WellFormed(ps, nextId) && ValidData(patch.data)
    ensures Update(ps, id, patch).Some? ==> WellFormed(Update(ps, id, patch).value, nextId)
  {
  }

  // ---- deleteProduct ----

  /** `deleteProduct`: None (false) when the id is absent; otherwise the
      first product with the id is cut out and the rest keep their order. */
  function Delete(ps: seq<Product>, id: int): (r: Option<seq<Product>>)
    ensures r.Some? <==> HasId(ps, id)
    ensures r.Some? ==> var i := FindIndex(ps, id); r.value == ps[..i] + ps[i + 1..]
  {
    var i := FindIndex(ps, id);
    if i == -1 then None else Some(ps[..i] + ps[i + 1..])
  }

  /** Deleting removes exactly one product, the one found. */
  lemma DeleteRemovesOne(ps: seq<Product>, id: int)
    requires HasId(ps, id)
    ensures multiset(Delete(ps, id).value) + multiset{ps[FindIndex(ps, id)]} == multiset(ps)
  {
    CutOne(ps, FindIndex(ps, id));
  }

  lemma CutOne<T>(s: seq<T>, i: nat)
    requires i < |s|
    ensures multiset(s[..i] + s[i + 1..]) + multiset{s[i]} == multiset(s)
  {
    assert s == s[..i] + ([s[i]] + s[i + 1..]);
    calc {
      multiset(s);
      multiset(s[..i]) + multiset([s[i]] + s[i + 1..]);
      multiset(s[..i]) + multiset{s[i]} + multiset(s[i + 1..]);
    }
  }

  /** With distinct ids the deleted id is gone afterwards, and the invariant
      still holds. */
  lemma DeleteKeepsInvariant(ps: seq<Product>, nextId: int, id: int)
    requires WellFormed(ps, nextId) && HasId(ps, id)
    ensures WellFormed(Delete(ps, id).value, nextId)
    ensures !HasId(Delete(ps, id).value, id)
  {
    var i := FindIndex(ps, id);
    var r := Delete(ps, id).value;
    assert forall k :: 0 <= k < |r| ==> r[k] == ps[if k < i then k else k + 1];
  }

  // ---- purchaseProduct / restockProduct ----

  datatype StockError = NotFound | BadAmount | Unavailable | InsufficientStock

  /** The outcome of a stock movement: the new list, or why it was refused. */
  datatype StockResult = Stocked(products: seq<Product>) | Refused(error: StockError)

  /** An amount, as `toNonNegativeInteger` returned it, that is a positive
      whole number (`qty && qty > 0`). */
  predicate PositiveAmount(qty: Option<nat>) {
    qty.Some? && qty.value > 0
  }

  /** The message `purchaseProduct` answers with when it refuses. */
  function PurchaseMessage(e: StockError): (m: string)
    ensures m != ""
  {
    match e
    case NotFound => "Produto não encontrado."
    case BadAmount => "Informe uma quantidade inteira positiva para compra."
    case Unavailable => "Produto indisponível para compra."
    case InsufficientStock => "Quantidade em estoque insuficiente."
  }

  /** The message `restockProduct` answers with; it refuses only for a
      missing product or a bad amount. */
  function RestockMessage(e: StockError): (m: string)
    requires e == NotFound || e == BadAmount
    ensures m != ""
  {
    if e == NotFound then "Produto não encontrado."
    else "Informe uma quantidade inteira positiva para reabastecer."
  }

  /** Each refusal has its own message, and the two operations word a bad
      amount differently but a missing product alike. */
  lemma MessagesDistinguish(e1: StockError, e2: StockError)
    ensures PurchaseMessage(e1) == PurchaseMessage(e2) ==> e1 == e2
    ensures PurchaseMessage(BadAmount) != RestockMessage(BadAmount)
    ensures PurchaseMessage(NotFound) == RestockMessage(NotFound)
  {
    assert |PurchaseMessage(NotFound)| == 23 && |PurchaseMessage(BadAmount)| == 52;
    assert |PurchaseMessage(Unavailable)| == 33 && |PurchaseMessage(InsufficientStock)| == 35;
    assert |PurchaseMessage(BadAmount)| != |RestockMessage(BadAmount)|;
  }

  /** `ps` with the stock of position `i` set to `q`. */
  function WithQuantity(ps: seq<Product>, i: nat, q: int): (r: seq<Product>)
    requires i < |ps|
    ensures |r| == |ps| && r[i].quantity == q
    ensures r[i] == ps[i].(quantity := q)
    ensures forall j :: 0 <= j < |ps| && j != i ==> r[j] == ps[j]
  {
    ps[i := ps[i].(quantity := q)]
  }

  /** `purchaseProduct`: succeeds exactly when the id is present, the amount
      is a positive whole number, the product is in stock and the amount does
      not exceed the stock; then that product's stock drops by the amount and
      stays non-negative. */
  function Purchase(ps: seq<Product>, id: int, qty: Option<nat>): (r: StockResult)
    ensures r.Stocked? <==>
              (&& HasId(ps, id) && PositiveAmount(qty)
               && ps[FindIndex(ps, id)].quantity > 0
               && qty.value <= ps[FindIndex(ps, id)].quantity)
    ensures r.Stocked? ==> var i := FindIndex(ps, id);
              && r.products == WithQuantity(ps, i, ps[i].quantity - qty.value)
              && r.products[i].quantity >= 0
  {
    var i := FindIndex(ps, id);
    if i == -1 then Refused(NotFound)
    else
      if !PositiveAmount(qty) then Refused(BadAmount)
      else if ps[i].quantity == 0 then Refused(Unavailable)
      else if ps[i].quantity - qty.value < 0 then Refused(InsufficientStock)
      else Stocked(WithQuantity(ps, i, ps[i].quantity - qty.value))
  }

  /** The order in which a purchase is refused: missing product, then bad
      amount, then no stock, then too little stock. */
  lemma PurchaseRefusals(ps: seq<Product>, id: int, qty: Option<nat>)
    ensures Purchase(ps, id, qty) == Refused(NotFound) <==> !HasId(ps, id)
    ensures Purchase(ps, id, qty) == Refused(BadAmount) <==>
              HasId(ps, id) && !PositiveAmount(qty)
    ensures Purchase(ps, id, qty) == Refused(Unavailable) <==>
              HasId(ps, id) && PositiveAmount(qty) && ps[FindIndex(ps, id)].quantity == 0
    ensures Purchase(ps, id, qty) == Refused(InsufficientStock) <==>
              (&& HasId(ps, id) && PositiveAmount(qty) && ps[FindIndex(ps, id)].quantity != 0
               && qty.value > ps[FindIndex(ps, id)].quantity)
  {
  }

  /** `restockProduct`: succeeds exactly when the id is present and the
      amount is a positive whole number; then that product's stock grows by
      the amount. A missing id is reported before a bad amount. */
  function Restock(ps: seq<Product>, id: int, qty: Option<nat>): (r: StockResult)
    ensures r.Stocked? <==> HasId(ps, id) && PositiveAmount(qty)
    ensures r.Refused? ==> r.error == if HasId(ps, id) then BadAmount else NotFound
    ensures r.Stocked? ==> var i := FindIndex(ps, id);
              r.products == WithQuantity(ps, i, ps[i].quantity + qty.value)
  {
    var i := FindIndex(ps, id);
    if i == -1 then Refused(NotFound)
    else
      if !PositiveAmount(qty) then Refused(BadAmount)
      else Stocked(WithQuantity(ps, i, ps[i].quantity + qty.value))
  }

  /** Purchases and restocks change one stock figure only, so they keep the
      invariant. */
  lemma StockKeepsInvariant(ps: seq<Product>, nextId: int, id: int, qty: Option<nat>)
    requires WellFormed(ps, nextId)
    ensures Purchase(ps, id, qty).Stocked? ==> WellFormed(Purchase(ps, id, qty).products, nextId)
    ensures Restock(ps, id, qty).Stocked? ==> WellFormed(Restock(ps, id, qty).products, nextId)
  {
  }

  /** Restocking an amount and then buying the same amount gives back the
      original list. */
  lemma {:induction false} RestockThenPurchase(ps: seq<Product>, id: int, qty: Option<nat>)
    requires HasId(ps, id) && PositiveAmount(qty)
    requires ps[FindIndex(ps, id)].quantity >= 0
    ensures Restock(ps, id, qty).Stocked?
    ensures Purchase(Restock(ps, id, qty).products, id, qty) == Stocked(ps)
  {
    var i := FindIndex(ps, id);
    var q := qty.value;
    var up := Restock(ps, id, qty).products;
    FindIndexSameIds(ps, up, id);
    var back := WithQuantity(up, i, up[i].quantity - q);
    assert back == ps;
  }

  /** One product with id 1 and 10 in stock: buying 15 is refused for
      insufficient stock and leaves it; buying 10 empties the stock. */
  lemma ExamplePurchases(p: Product)
    requires p.id == 1 && p.quantity == 10
    ensures Purchase([p], 1, Some(15)) == Refused(InsufficientStock)
    ensures Purchase([p], 1, Some(10)) == Stocked([p.(quantity := 0)])
  {
    assert FindIndex([p], 1) == 0;
  }

  // ---- hydrate ----

  /** The product list as `hydrate` finds it in storage: no entry (or an
      empty one), text that `JSON.parse` rejects, a value that is not an
      array, or a decoded array. */
  datatype StoredList = Absent | Unparsable | NotAList | Decoded(items: seq<Product>)

  /** `products.reduce((m, p) => Math.max(m, p.id || 0), 0)`. */
  function MaxId(ps: seq<Product>): (m: int)
    ensures m >= 0
    ensures forall p :: p in ps ==> p.id <= m
    ensures m == 0 || exists p :: p in ps && p.id == m
  {
    if ps == [] then 0
    else
      var rest := MaxId(ps[..|ps| - 1]);
      assert forall p :: p in ps[..|ps| - 1] ==> p in ps;
      assert forall p :: p in ps ==> p in ps[..|ps| - 1] || p == ps[|ps| - 1];
      if ps[|ps| - 1].id > rest then ps[|ps| - 1].id else rest
  }

  /** `if (rawId)`: a stored counter that is present and not empty. */
  predicate Truthy(s: Option<string>) {
    s.Some? && s.value != ""
  }

  /** The counter after `hydrate`: a stored counter is taken when it parses
      to a positive integer and ignored otherwise; with no stored counter it
      is recomputed from the loaded list, above every id in it. */
  function RecoveredNextId(current: int, ps: seq<Product>, rawId: Option<string>): (r: int)
    ensures Truthy(rawId) && ParseInt(rawId.value).Some? && ParseInt(rawId.value).value > 0
            ==> r == ParseInt(rawId.value).value
    ensures Truthy(rawId) && !(ParseInt(rawId.value).Some? && ParseInt(rawId.value).value > 0)
            ==> r == current
    ensures !Truthy(rawId) ==> r == MaxId(ps) + 1
    ensures !Truthy(rawId) ==> r >= 1 && forall p :: p in ps ==> p.id < r
  {
    if Truthy(rawId) then
      var n := ParseInt(rawId.value);
      if n.Some? && n.value > 0 then n.value else current
    else MaxId(ps) + 1
  }

  /** `hydrate`: the list and counter after start-up. Text that does not
      parse aborts the whole step, so nothing changes; a value that is not
      an array keeps the list but still recovers the counter. */
  function Hydrated(ps: seq<Product>, nextId: int, saved: StoredList, rawId: Option<string>)
    : (r: (seq<Product>, int))
    ensures saved.Unparsable? ==> r == (ps, nextId)
    ensures saved.Decoded? ==> r.0 == saved.items
    ensures saved.Absent? || saved.NotAList? ==> r.0 == ps
    ensures !saved.Unparsable? ==> r.1 == RecoveredNextId(nextId, r.0, rawId)
  {
    if saved.Unparsable? then (ps, nextId)
    else
      var loaded := if saved.Decoded? then saved.items else ps;
      (loaded, RecoveredNextId(nextId, loaded, rawId))
  }

  /** What `persist` writes: the list and `String(nextProductId)`. */
  function Persisted(ps: seq<Product>, nextId: nat): (r: (StoredList, Option<string>))
    ensures r.0 == Decoded(ps)
    ensures Truthy(r.1) && ParseInt(r.1.value) == Some(nextId as int)
  {
    var raw := ShowNat(nextId);
    ParseIntShowNat(nextId, "");
    assert raw + "" == raw;
    (Decoded(ps), Some(raw))
  }

  /** Reloading what was persisted gives back the same list and counter,
      whatever the state before the reload. */
  lemma ReloadRestores(ps: seq<Product>, nextId: nat, before: seq<Product>, beforeId: int)
    requires nextId >= 1
    ensures var (saved, rawId) := Persisted(ps, nextId);
            Hydrated(before, beforeId, saved, rawId) == (ps, nextId)
  {
    var (saved, rawId) := Persisted(ps, nextId);
    assert RecoveredNextId(beforeId, ps, rawId) == nextId;
  }

  /** With no stored counter, every id loaded is below the recovered counter;
      a counter recovered from an empty list is 1. */
  lemma RecoveredIdIsFresh(current: int, ps: seq<Product>)
    ensures forall p :: p in ps ==> p.id < RecoveredNextId(current, ps, None)
    ensures ps == [] ==> RecoveredNextId(current, ps, None) == 1
  {
  }
}
