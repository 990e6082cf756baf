// The per-size stock counters of the product collection, and the two
// ways the order handlers change them: a planned write of a value computed
// from the stock read at check time (order placement), and a re-read and
// increment (cancellation).
module Inventory {
  import opened Results
  import opened ProductModel
  import opened OrderModel

  type Catalog = map<ProductId, Product>

  /** A save of one counter: `products[pid].sizes[index].stock := stock`. */
  datatype StockWrite = StockWrite(pid: ProductId, index: nat, stock: int)

  predicate HasCounter(products: Catalog, pid: ProductId, i: nat) {
    pid in products && i < |products[pid].sizes|
  }

  function StockAt(products: Catalog, pid: ProductId, i: nat): int
    requires HasCounter(products, pid, i)
  {
    products[pid].sizes[i].stock
  }

  /** The stock of the first entry with that size label, if the product and the entry exist. */
  function StockOf(products: Catalog, pid: ProductId, size: string): Option<int> {
    if pid !in products then None
    else match FindSize(products[pid].sizes, size)
      case None => None
      case Some(i) => Some(products[pid].sizes[i].stock)
  }

  /** Two products that differ at most in their stock counters. */
  predicate SameShape(a: Product, b: Product) {
    && a.name == b.name && a.description == b.description && a.price == b.price
    && a.images == b.images && a.category == b.category && a.reviews == b.reviews
    && a.rating == b.rating && a.numReviews == b.numReviews && a.featured == b.featured
    && a.isTrending == b.isTrending && a.isNewArrival == b.isNewArrival
    && a.isBestSeller == b.isBestSeller && a.createdAt == b.createdAt
    && |a.sizes| == |b.sizes|
    && forall i :: 0 <= i < |a.sizes| ==> a.sizes[i].size == b.sizes[i].size
  }

  /** Two catalogues with the same products that differ at most in stock counters. */
  predicate SameCatalog(a: Catalog, b: Catalog) {
    a.Keys == b.Keys && forall pid :: pid in a ==> SameShape(a[pid], b[pid])
  }

  lemma FindSizeOfSameShape(a: Product, b: Product, size: string)
    requires SameShape(a, b)
    ensures FindSize(a.sizes, size) == FindSize(b.sizes, size)
  {
    var ra, rb := FindSize(a.sizes, size), FindSize(b.sizes, size);
    if ra.Some? && rb.Some? {
      assert !(ra.value < rb.value) && !(rb.value < ra.value);
    }
  }

  lemma SameCatalogTransitive(a: Catalog, b: Catalog, c: Catalog)
    requires SameCatalog(a, b) && SameCatalog(b, c)
    ensures SameCatalog(a, c)
  {
  }

  function Write(products: Catalog, w: StockWrite): (r: Catalog)
    requires HasCounter(products, w.pid, w.index)
    ensures SameCatalog(products, r)
    ensures StockAt(r, w.pid, w.index) == w.stock
  {
    var p := products[w.pid];
    var sizes := p.sizes[w.index := SizeStock(p.sizes[w.index].size, w.stock)];
    products[w.pid := p.(sizes := sizes)]
  }

  /** A save changes no other counter. */
  lemma WriteKeepsOthers(products: Catalog, w: StockWrite, pid: ProductId, i: nat)
    requires HasCounter(products, w.pid, w.index) && HasCounter(products, pid, i)
    requires pid != w.pid || i != w.index
    ensures StockAt(Write(products, w), pid, i) == StockAt(products, pid, i)
  {
  }

  predicate WritesFit(products: Catalog, ws: seq<StockWrite>) {
    forall k :: 0 <= k < |ws| ==> HasCounter(products, ws[k].pid, ws[k].index)
  }

  lemma WritesFitSameCatalog(a: Catalog, b: Catalog, ws: seq<StockWrite>)
    requires SameCatalog(a, b) && WritesFit(a, ws)
    ensures WritesFit(b, ws)
  {
  }

  /** The saves applied one after another; a later save of the same counter overwrites an earlier one. */
  function ApplyWrites(products: Catalog, ws: seq<StockWrite>): (r: Catalog)
    requires WritesFit(products, ws)
    ensures SameCatalog(products, r)
    decreases |ws|
  {
    if ws == [] then products
    else
      var before := ApplyWrites(products, ws[..|ws| - 1]);
      WritesFitSameCatalog(products, before, ws);
      var r := Write(before, ws[|ws| - 1]);
      SameCatalogTransitive(products, before, r);
      r
  }

  /** Applying the first n + 1 saves is applying the first n, then save n. */
  lemma ApplyWritesSnoc(products: Catalog, ws: seq<StockWrite>, n: nat)
    requires WritesFit(products, ws) && n < |ws|
    ensures WritesFit(ApplyWrites(products, ws[..n]), ws)
    ensures ApplyWrites(products, ws[..n + 1]) == Write(ApplyWrites(products, ws[..n]), ws[n])
  {
    assert ws[..n + 1][..n] == ws[..n];
    WritesFitSameCatalog(products, ApplyWrites(products, ws[..n]), ws);
  }

  /** The value of the last save of counter (pid, i), if any. */
  function LastWrite(ws: seq<StockWrite>, pid: ProductId, i: nat): Option<int> {
    if ws == [] then None
    else if ws[|ws| - 1].pid == pid && ws[|ws| - 1].index == i then Some(ws[|ws| - 1].stock)
    else LastWrite(ws[..|ws| - 1], pid, i)
  }

  /** No save of the counter: it was never written. */
  lemma {:induction false} LastWriteNone(ws: seq<StockWrite>, pid: ProductId, i: nat)
    requires forall k :: 0 <= k < |ws| ==> !(ws[k].pid == pid && ws[k].index == i)
    ensures LastWrite(ws, pid, i) == None
  {
    if ws != [] {
      var front := ws[..|ws| - 1];
      assert forall k :: 0 <= k < |front| ==> front[k] == ws[k];
      LastWriteNone(front, pid, i);
    }
  }

  /** Save `k` is the last one of the counter: its value is the last written. */
  lemma {:induction false} LastWriteAt(ws: seq<StockWrite>, pid: ProductId, i: nat, k: nat)
    requires k < |ws| && ws[k].pid == pid && ws[k].index == i
    requires forall j :: k < j < |ws| ==> !(ws[j].pid == pid && ws[j].index == i)
    ensures LastWrite(ws, pid, i) == Some(ws[k].stock)
  {
    if k < |ws| - 1 {
      var front := ws[..|ws| - 1];
      assert forall j :: 0 <= j < |front| ==> front[j] == ws[j];
      LastWriteAt(front, pid, i, k);
    }
  }

  /** Last write wins: each counter ends with its last saved value, or keeps its value when never saved. */
  lemma {:induction false} ApplyWritesStock(products: Catalog, ws: seq<StockWrite>, pid: ProductId, i: nat)
    requires WritesFit(products, ws) && HasCounter(products, pid, i)
    ensures HasCounter(ApplyWrites(products, ws), pid, i)
    ensures StockAt(ApplyWrites(products, ws), pid, i) ==
              match LastWrite(ws, pid, i)
              case None => StockAt(products, pid, i)
              case Some(v) => v
  {
    if ws != [] {
      var before := ApplyWrites(products, ws[..|ws| - 1]);
      ApplyWritesStock(products, ws[..|ws| - 1], pid, i);
      WritesFitSameCatalog(products, before, ws);
      if ws[|ws| - 1].pid != pid || ws[|ws| - 1].index != i {
        WriteKeepsOthers(before, ws[|ws| - 1], pid, i);
      }
    }
  }

  /** Line item `item` refers to counter (pid, i): the first entry of its product with its size label. */
  predicate Targets(products: Catalog, item: LineItem, pid: ProductId, i: nat) {
    item.productId == pid && pid in products && FindSize(products[pid].sizes, item.size) == Some(i)
  }

  lemma TargetsSameCatalog(a: Catalog, b: Catalog, item: LineItem, pid: ProductId, i: nat)
    requires SameCatalog(a, b)
    ensures Targets(a, item, pid, i) <==> Targets(b, item, pid, i)
  {
    if pid in a {
      FindSizeOfSameShape(a[pid], b[pid], item.size);
    }
  }

  /**
   * The total quantity the line items ask of counter (pid, i): never negative
   * for positive quantities, and nothing when no item names that counter.
   */
  function Demand(products: Catalog, items: seq<LineItem>, pid: ProductId, i: nat): (d: int)
    ensures (forall k :: 0 <= k < |items| ==> items[k].quantity >= 1) ==> d >= 0
    ensures (forall k :: 0 <= k < |items| ==> !Targets(products, items[k], pid, i)) ==> d == 0
  {
    if items == [] then 0
    else
      var front, last := items[..|items| - 1], items[|items| - 1];
      assert forall k :: 0 <= k < |front| ==> front[k] == items[k];
      Demand(products, front, pid, i) + (if Targets(products, last, pid, i) then last.quantity else 0)
  }

  lemma {:induction false} DemandSameCatalog(a: Catalog, b: Catalog, items: seq<LineItem>, pid: ProductId, i: nat)
    requires SameCatalog(a, b)
    ensures Demand(a, items, pid, i) == Demand(b, items, pid, i)
  {
    if items != [] {
      DemandSameCatalog(a, b, items[..|items| - 1], pid, i);
      TargetsSameCatalog(a, b, items[|items| - 1], pid, i);
    }
  }

  /** The index of the last line item that refers to counter (pid, i). */
  function LastTarget(products: Catalog, items: seq<LineItem>, pid: ProductId, i: nat): (r: Option<nat>)
    ensures r.Some? ==> r.value < |items| && Targets(products, items[r.value], pid, i)
    ensures r.Some? ==> forall k :: r.value < k < |items| ==> !Targets(products, items[k], pid, i)
    ensures r.None? ==> forall k :: 0 <= k < |items| ==> !Targets(products, items[k], pid, i)
  {
    if items == [] then None
    else if Targets(products, items[|items| - 1], pid, i) then Some(|items| - 1)
    else LastTarget(products, items[..|items| - 1], pid, i)
  }

  /** At most one line item per (product, size) pair. */
  predicate DistinctKeys(items: seq<LineItem>) {
    forall j, k :: 0 <= j < k < |items| ==>
      items[j].productId != items[k].productId || items[j].size != items[k].size
  }

  lemma TargetsSameKey(products: Catalog, a: LineItem, b: LineItem, pid: ProductId, i: nat)
    requires Targets(products, a, pid, i) && Targets(products, b, pid, i)
    ensures a.productId == b.productId && a.size == b.size
  {
  }

  /** Items with different (product, size) keys never refer to the same counter. */
  lemma DifferentKeysNotBoth(products: Catalog, a: LineItem, b: LineItem, pid: ProductId, i: nat)
    requires a.productId != b.productId || a.size != b.size
    ensures !(Targets(products, a, pid, i) && Targets(products, b, pid, i))
  {
  }

  /** With distinct keys, a counter's demand is the quantity of the one item that refers to it, or nothing. */
  lemma {:induction false} DemandOfDistinct(products: Catalog, items: seq<LineItem>, pid: ProductId, i: nat)
    requires DistinctKeys(items)
    ensures Demand(products, items, pid, i) ==
              match LastTarget(products, items, pid, i)
              case None => 0
              case Some(k) => items[k].quantity
  {
    if items != [] {
      var init := items[..|items| - 1];
      assert DistinctKeys(init);
      DemandOfDistinct(products, init, pid, i);
      var last := items[|items| - 1];
      match LastTarget(products, init, pid, i)
      case None =>
      case Some(k) =>
        // The item before `last` refers to the counter, so by distinct keys `last` does not.
        assert items[k] == init[k];
        assert items[k].productId != last.productId || items[k].size != last.size;
        DifferentKeysNotBoth(products, init[k], last, pid, i);
    }
  }

  /** Cancellation of one line item: re-read the product and add the quantity back, if the product and the size still exist. */
  function RestoreItem(products: Catalog, item: LineItem): (r: Catalog)
    ensures SameCatalog(products, r)
  {
    if item.productId !in products then products
    else match FindSize(products[item.productId].sizes, item.size)
      case None => products
      case Some(i) => Write(products, StockWrite(item.productId, i, StockAt(products, item.productId, i) + item.quantity))
  }

  /** One restore adds the item's quantity to the counter it refers to and to no other. */
  lemma RestoreItemStock(products: Catalog, item: LineItem, pid: ProductId, i: nat)
    requires HasCounter(products, pid, i)
    ensures HasCounter(RestoreItem(products, item), pid, i)
    ensures StockAt(RestoreItem(products, item), pid, i) ==
              StockAt(products, pid, i) + if Targets(products, item, pid, i) then item.quantity else 0
  {
    if item.productId in products && FindSize(products[item.productId].sizes, item.size).Some? {
      var j := FindSize(products[item.productId].sizes, item.size).value;
      if item.productId != pid || j != i {
        WriteKeepsOthers(products, StockWrite(item.productId, j, StockAt(products, item.productId, j) + item.quantity), pid, i);
      }
    }
  }

  /** The restore of an item whose product and size entry exist is a save of the re-read stock plus the quantity. */
  lemma RestoreItemFound(products: Catalog, item: LineItem, i: nat)
    requires item.productId in products && FindSize(products[item.productId].sizes, item.size) == Some(i)
    ensures HasCounter(products, item.productId, i)
    ensures RestoreItem(products, item) ==
              Write(products, StockWrite(item.productId, i, products[item.productId].sizes[i].stock + item.quantity))
  {
  }

  function Restore(products: Catalog, items: seq<LineItem>): (r: Catalog)
    ensures SameCatalog(products, r)
  {
    if items == [] then products
    else
      var before := Restore(products, items[..|items| - 1]);
      var r := RestoreItem(before, items[|items| - 1]);
      SameCatalogTransitive(products, before, r);
      r
  }

  /** Restoring the first n + 1 items is restoring the first n, then item n. */
  lemma RestoreSnoc(products: Catalog, items: seq<LineItem>, n: nat)
    requires n < |items|
    ensures Restore(products, items[..n + 1]) == RestoreItem(Restore(products, items[..n]), items[n])
  {
    assert items[..n + 1][..n] == items[..n];
  }

  /** Cancelling gives every counter back the whole demand of the items, duplicates included. */
  lemma {:induction false} RestoreStock(products: Catalog, items: seq<LineItem>, pid: ProductId, i: nat)
    requires HasCounter(products, pid, i)
    ensures HasCounter(Restore(products, items), pid, i)
    ensures StockAt(Restore(products, items), pid, i) == StockAt(products, pid, i) + Demand(products, items, pid, i)
  {
    if items != [] {
      var init := items[..|items| - 1];
      var before := Restore(products, init);
      RestoreStock(products, init, pid, i);
      RestoreItemStock(before, items[|items| - 1], pid, i);
      TargetsSameCatalog(products, before, items[|items| - 1], pid, i);
    }
  }

  /** Two catalogues of the same shape whose every counter agrees are equal. */
  lemma CatalogExtensionality(a: Catalog, b: Catalog)
    requires SameCatalog(a, b)
    requires forall pid, i :: HasCounter(a, pid, i) ==> StockAt(a, pid, i) == StockAt(b, pid, i)
    ensures a == b
  {
    forall pid | pid in a
      ensures a[pid] == b[pid]
    {
      forall i | 0 <= i < |a[pid].sizes|
        ensures a[pid].sizes[i] == b[pid].sizes[i]
      {
        assert HasCounter(a, pid, i);
      }
      assert a[pid].sizes == b[pid].sizes;
    }
  }
}
