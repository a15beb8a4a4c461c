/** The inventory's mutable state: the product list and the id counter that
    the page's closure holds, updated in place by the store operations,
    `hydrate` and `persist`. Each method is specified by the matching
    function of `Catalog`. */
module Inventory {
  import opened Wrappers
  import opened JsNumbers
  import opened Validation
  import opened Catalog

  /** What `purchaseProduct` and `restockProduct` answer: `{ ok: true }`, or
      `{ ok: false, message }` with the reason. */
  datatype Reply = Done | Failed(error: StockError)

  class Store {
    var products: seq<Product>
    var nextProductId: nat

    /** The invariant every store operation keeps. */
    ghost predicate Valid()
      reads this
    {
      WellFormed(products, nextProductId)
    }

    /** The empty list and the counter at 1. */
    constructor ()
      ensures products == [] && nextProductId == 1
      ensures Valid()
    {
      products := [];
      nextProductId := 1;
    }

    /** `products.findIndex(p => p.id === id)`. */
    method Find(id: int) returns (i: int)
      ensures i == FindIndex(products, id)
    {
      i := 0;
      while i < |products|
        invariant 0 <= i <= |products|
        invariant forall j :: 0 <= j < i ==> products[j].id != id
      {
        if products[i].id == id {
          return;
        }
        i := i + 1;
      }
      i := -1;
    }

    /** `products.reduce((m, p) => Math.max(m, p.id || 0), 0)`. */
    method LargestId() returns (m: int)
      ensures m == MaxId(products)
    {
      m := 0;
      var k := 0;
      while k < |products|
        invariant 0 <= k <= |products|
        invariant m == MaxId(products[..k])
      {
        assert products[..k + 1][..k] == products[..k];
        if products[k].id > m {
          m := products[k].id;
        }
        k := k + 1;
      }
      assert products[..k] == products;
    }

    /** `createProduct`: the counter's value becomes the new product's id,
        the product is appended and the counter moves on. The id is not in
        use, and valid data keeps the invariant. */
    method CreateProduct(data: ProductData, image: Option<string>) returns (p: Product)
      modifies this
      ensures p == NewProduct(old(nextProductId), data, image)
      ensures (products, nextProductId as int) ==
              Create(old(products), old(nextProductId), data, image)
      ensures old(Valid()) ==> !HasId(old(products), p.id)
      ensures old(Valid()) && ValidData(data) ==> Valid()
    {
      ghost var before := products;
      p := NewProduct(nextProductId, data, image);
      nextProductId := nextProductId + 1;
      products := products + [p];
      if WellFormed(before, nextProductId - 1) {
        CreateFreshId(before, nextProductId - 1, data, image);
      }
    }

    /** `updateProduct`: false and no change when the id is absent,
        otherwise the product merged with the patch, in place. */
    method UpdateProduct(id: int, patch: Patch) returns (found: bool)
      modifies this
      ensures found <==> HasId(old(products), id)
      ensures found ==> products == Update(old(products), id, patch).value
      ensures !found ==> products == old(products)
      ensures nextProductId == old(nextProductId)
      ensures old(Valid()) && ValidData(patch.data) ==> Valid()
    {
      var i := Find(id);
      if i == -1 {
        return false;
      }
      products := products[i := Merge(products[i], patch)];
      found := true;
    }

    /** `deleteProduct`: false and no change when the id is absent,
        otherwise the product is spliced out. */
    method DeleteProduct(id: int) returns (found: bool)
      modifies this
      ensures found <==> HasId(old(products), id)
      ensures found ==> products == Delete(old(products), id).value
      ensures !found ==> products == old(products)
      ensures nextProductId == old(nextProductId)
      ensures old(Valid()) ==> Valid() && !HasId(products, id)
    {
      var i := Find(id);
      if i == -1 {
        return false;
      }
      ghost var before := products;
      products := products[..i] + products[i + 1..];
      found := true;
      if WellFormed(before, nextProductId) {
        DeleteKeepsInvariant(before, nextProductId, id);
      }
    }

    /** `purchaseProduct`: the amount is read by `toNonNegativeInteger`;
        the answer and the new list are those of `Purchase`. */
    method PurchaseProduct(id: int, amount: JsValue) returns (reply: Reply)
      modifies this
      ensures var r := Purchase(old(products), id, ToNonNegativeInteger(amount));
              && (r.Stocked? ==> reply == Done && products == r.products)
              && (r.Refused? ==> reply == Failed(r.error) && products == old(products))
      ensures nextProductId == old(nextProductId)
      ensures old(Valid()) ==> Valid()
    {
      var q := ToNonNegativeInteger(amount);
      reply := Buy(id, q);
    }

    /** The steps of `purchaseProduct` after the product lookup and the
        amount conversion: refuse, or take the amount off the stock. */
    method Buy(id: int, q: Option<nat>) returns (reply: Reply)
      modifies this
      ensures var r := Purchase(old(products), id, q);
              && (r.Stocked? ==> reply == Done && products == r.products)
              && (r.Refused? ==> reply == Failed(r.error) && products == old(products))
      ensures nextProductId == old(nextProductId)
      ensures old(Valid()) ==> Valid()
    {
      var i := Find(id);
      if i == -1 {
        return Failed(NotFound);
      }
      if q.None? || q.value <= 0 {
        return Failed(BadAmount);
      }
      if products[i].quantity == 0 {
        return Failed(Unavailable);
      }
      if products[i].quantity - q.value < 0 {
        return Failed(InsufficientStock);
      }
      products := products[i := products[i].(quantity := products[i].quantity - q.value)];
      reply := Done;
    }

    /** `restockProduct`: the amount is read by `toNonNegativeInteger`;
        the answer and the new list are those of `Restock`. */
    method RestockProduct(id: int, amount: JsValue) returns (reply: Reply)
      modifies this
      ensures var r := Restock(old(products), id, ToNonNegativeInteger(amount));
              && (r.Stocked? ==> reply == Done && products == r.products)
              && (r.Refused? ==> reply == Failed(r.error) && products == old(products))
      ensures nextProductId == old(nextProductId)
      ensures old(Valid()) ==> Valid()
    {
      var q := ToNonNegativeInteger(amount);
      reply := Refill(id, q);
    }

    /** The steps of `restockProduct` after the amount conversion: refuse,
        or add the amount to the stock. */
    method Refill(id: int, q: Option<nat>) returns (reply: Reply)
      modifies this
      ensures var r := Restock(old(products), id, q);
              && (r.Stocked? ==> reply == Done && products == r.products)
              && (r.Refused? ==> reply == Failed(r.error) && products == old(products))
      ensures nextProductId == old(nextProductId)
      ensures old(Valid()) ==> Valid()
    {
      var i := Find(id);
      if i == -1 {
        return Failed(NotFound);
      }
      if q.None? || q.value <= 0 {
        return Failed(BadAmount);
      }
      products := products[i := products[i].(quantity := products[i].quantity + q.value)];
      reply := Done;
    }

    /** `persist`: the list and `String(nextProductId)`. */
    method Persist() returns (saved: StoredList, rawId: Option<string>)
      ensures (saved, rawId) == Persisted(products, nextProductId)
    {
      saved, rawId := Decoded(products), Some(JsStrings.ShowNat(nextProductId));
    }

    /** `hydrate`: replaces the list with a stored array and recovers the
        counter; text that does not parse leaves everything as it was. */
    method Hydrate(saved: StoredList, rawId: Option<string>)
      modifies this
      ensures (products, nextProductId as int) ==
              Hydrated(old(products), old(nextProductId), saved, rawId)
    {
      if saved.Unparsable? {
        return;
      }
      if saved.Decoded? {
        products := saved.items;
      }
      ghost var loaded := products;
      if Truthy(rawId) {
        var n := JsStrings.ParseInt(rawId.value);
        if n.Some? && n.value > 0 {
          nextProductId := n.value;
        }
      } else {
        var m := LargestId();
        nextProductId := m + 1;
      }
      assert nextProductId == RecoveredNextId(old(nextProductId), loaded, rawId);
    }
  }
}
