// The order handlers (backend/controllers/orderController.js) over the
// document store: placing an order against the per-size stock, reading an
// order, the review path for delivered orders, cancellation with stock
// restoration, and the admin status update.
module OrderController {
  import opened Results
  import opened ProductModel
  import opened OrderModel
  import opened Store
  import opened Inventory

  /** The body of `POST /api/orders`; a missing object is `None`, a missing string is empty. */
  datatype OrderRequest = OrderRequest(
    products: seq<LineItem>,
    customerInfo: Option<CustomerInfo>,
    totalPrice: int,
    paymentInfo: Option<PaymentInfo>)

  /** The handler's own check: name, phone and an address object are present. */
  predicate CustomerInfoGiven(c: Option<CustomerInfo>) {
    c.Some? && c.value.name != [] && c.value.phone != [] && c.value.address.Some?
  }

  predicate PaymentConfirmed(p: Option<PaymentInfo>) {
    p.Some? && p.value.paymentStatus == "Success"
  }

  predicate HasGatewayOrder(o: Order, gatewayOrderId: string) {
    o.paymentInfo.Some? && o.paymentInfo.value.cashfreeOrderId == gatewayOrderId
  }

  /** `Order.findOne({'paymentInfo.cashfreeOrderId': id})`: the first stored order with that gateway id. */
  function FindByGatewayOrder(orders: seq<Order>, gatewayOrderId: string): (r: Option<nat>)
    ensures r.Some? ==> r.value < |orders| && HasGatewayOrder(orders[r.value], gatewayOrderId)
    ensures r.Some? ==> forall j :: 0 <= j < r.value ==> !HasGatewayOrder(orders[j], gatewayOrderId)
    ensures r.None? <==> forall j :: 0 <= j < |orders| ==> !HasGatewayOrder(orders[j], gatewayOrderId)
  {
    if orders == [] then None
    else if HasGatewayOrder(orders[0], gatewayOrderId) then Some(0)
    else match FindByGatewayOrder(orders[1..], gatewayOrderId)
      case None => None
      case Some(j) => Some(j + 1)
  }

  // ---------------------------------------------------------------------
  // The stock check of every line item, before any counter is saved.

  /** The line item's product exists, has an entry for its size, and that entry holds enough stock. */
  predicate ItemFits(products: Catalog, item: LineItem) {
    && item.productId in products
    && FindSize(products[item.productId].sizes, item.size).Some?
    && StockAt(products, item.productId, FindSize(products[item.productId].sizes, item.size).value) >= item.quantity
  }

  /** The save the item's own copy of its product will make: the stock read at check time minus the quantity. */
  function PlannedWrite(products: Catalog, item: LineItem): (w: StockWrite)
    requires ItemFits(products, item)
    ensures HasCounter(products, w.pid, w.index) && Targets(products, item, w.pid, w.index)
    ensures w.stock == StockAt(products, w.pid, w.index) - item.quantity && w.stock >= 0
  {
    var i := FindSize(products[item.productId].sizes, item.size).value;
    StockWrite(item.productId, i, StockAt(products, item.productId, i) - item.quantity)
  }

  /** The error response for an item that does not fit: 404 for a missing product, else 400 with the available count. */
  function ItemFailure(products: Catalog, item: LineItem): (f: Failure)
    requires !ItemFits(products, item)
    ensures HttpStatus(f) == if item.productId in products then 400 else 404
  {
    if item.productId !in products then ProductNotFound(item.productId)
    else match FindSize(products[item.productId].sizes, item.size)
      case None => InsufficientStock(item.productId, item.size, 0, item.quantity)
      case Some(i) => InsufficientStock(item.productId, item.size, StockAt(products, item.productId, i), item.quantity)
  }

  /** The check loop stops at the first item that does not fit. */
  function FirstMisfit(products: Catalog, items: seq<LineItem>): (r: Option<nat>)
    ensures r.Some? ==> r.value < |items| && !ItemFits(products, items[r.value])
    ensures r.Some? ==> forall j :: 0 <= j < r.value ==> ItemFits(products, items[j])
    ensures r.None? <==> AllFit(products, items)
  {
    if items == [] then None
    else if !ItemFits(products, items[0]) then Some(0)
    else match FirstMisfit(products, items[1..])
      case None =>
        assert forall j :: 1 <= j < |items| ==> items[j] == items[1..][j - 1];
        None
      case Some(j) => Some(j + 1)
  }

  predicate AllFit(products: Catalog, items: seq<LineItem>) {
    forall k :: 0 <= k < |items| ==> ItemFits(products, items[k])
  }

  /** The saves the second loop makes, one per item, in item order. */
  function Plan(products: Catalog, items: seq<LineItem>): (ws: seq<StockWrite>)
    requires AllFit(products, items)
    ensures |ws| == |items| && WritesFit(products, ws)
    ensures forall k :: 0 <= k < |items| ==> ws[k] == PlannedWrite(products, items[k])
  {
    seq(|items|, k requires 0 <= k < |items| => PlannedWrite(products, items[k]))
  }

  lemma PlanOfPrefix(products: Catalog, items: seq<LineItem>, n: nat)
    requires AllFit(products, items) && n <= |items|
    ensures AllFit(products, items[..n])
    ensures Plan(products, items[..n]) == Plan(products, items)[..n]
  {
  }

  // ---------------------------------------------------------------------
  // createOrder

  datatype Placed = Created(id: nat) | Existing(id: nat)

  /** A handler's response together with the store it leaves behind. */
  datatype Outcome<T> = Outcome(result: Result<T, Failure>, products: Catalog, orders: seq<Order>)

  /**
   * createOrder as written: validate the request, answer a repeated gateway id
   * with the stored order, check every item, save every planned counter, and
   * only then build the order document, whose schema validation may still fail.
   */
  function PlaceOrder(products: Catalog, orders: seq<Order>, customer: UserId, req: OrderRequest, now: int): (r: Outcome<Placed>)
    ensures SameCatalog(products, r.products)
    ensures r.result.Err? ==> r.orders == orders
    ensures r.result.Ok? && r.result.value.Existing? ==>
      r.result.value.id < |orders| && r.products == products && r.orders == orders
    ensures r.result.Ok? && r.result.value.Created? ==>
      r.result.value.id == |orders| && |r.orders| == |orders| + 1 && r.orders[..|orders|] == orders
  {
    if |req.products| == 0 then Outcome(Err(NoProducts), products, orders)
    else if !CustomerInfoGiven(req.customerInfo) then Outcome(Err(IncompleteCustomerInfo), products, orders)
    else if !PaymentConfirmed(req.paymentInfo) then Outcome(Err(PaymentVerificationRequired), products, orders)
    else if req.paymentInfo.value.cashfreeOrderId != [] && FindByGatewayOrder(orders, req.paymentInfo.value.cashfreeOrderId).Some? then
      Outcome(Ok(Existing(FindByGatewayOrder(orders, req.paymentInfo.value.cashfreeOrderId).value)), products, orders)
    else Admit(products, orders, customer, req, now)
  }

  /** The part of createOrder after the request checks: check stock, save it, then build and validate the order. */
  function Admit(products: Catalog, orders: seq<Order>, customer: UserId, req: OrderRequest, now: int): (r: Outcome<Placed>)
    requires CustomerInfoGiven(req.customerInfo)
    ensures SameCatalog(products, r.products)
    ensures r.result.Err? ==> r.orders == orders
    ensures r.result.Ok? ==>
      && r.result == Ok(Created(|orders|))
      && r.orders == orders + [NewOrder(customer, req.products, req.customerInfo.value, req.totalPrice, req.paymentInfo, now)]
  {
    match FirstMisfit(products, req.products)
    case Some(k) => Outcome(Err(ItemFailure(products, req.products[k])), products, orders)
    case None =>
      var stocked := Stocked(products, req.products);
      var order := NewOrder(customer, req.products, req.customerInfo.value, req.totalPrice, req.paymentInfo, now);
      if ValidOrder(order) then Outcome(Ok(Created(|orders|)), stocked, orders + [order])
      else Outcome(Err(ValidationFailed), stocked, orders)
  }

  /** The request passes the handler's own three checks. */
  predicate WellFormed(req: OrderRequest) {
    |req.products| > 0 && CustomerInfoGiven(req.customerInfo) && PaymentConfirmed(req.paymentInfo)
  }

  predicate IsRepeat(orders: seq<Order>, req: OrderRequest)
    requires WellFormed(req)
  {
    req.paymentInfo.value.cashfreeOrderId != [] && FindByGatewayOrder(orders, req.paymentInfo.value.cashfreeOrderId).Some?
  }

  /** The three request checks answer 400 and leave both collections untouched. */
  lemma MalformedRequestChangesNothing(products: Catalog, orders: seq<Order>, customer: UserId, req: OrderRequest, now: int)
    requires !WellFormed(req)
    ensures var out := PlaceOrder(products, orders, customer, req, now);
      out.result.Err? && HttpStatus(out.result.error) == 400 && out.products == products && out.orders == orders
  {
  }

  /** A repeated gateway order id answers with the stored order carrying that id; nothing is saved. */
  lemma RepeatReturnsStoredOrder(products: Catalog, orders: seq<Order>, customer: UserId, req: OrderRequest, now: int)
    requires WellFormed(req) && IsRepeat(orders, req)
    ensures var out := PlaceOrder(products, orders, customer, req, now);
      && out.result.Ok? && out.result.value.Existing?
      && out.result.value.id < |orders|
      && HasGatewayOrder(orders[out.result.value.id], req.paymentInfo.value.cashfreeOrderId)
      && out.products == products && out.orders == orders
  {
  }

  /** Without a gateway order id there is no duplicate lookup: an identical stored order does not stop a second placement. */
  lemma NoGatewayIdNoDuplicateCheck(products: Catalog, orders: seq<Order>, customer: UserId, req: OrderRequest, now: int)
    requires WellFormed(req) && req.paymentInfo.value.cashfreeOrderId == []
    requires forall k :: 0 <= k < |req.products| ==> ItemFits(products, req.products[k])
    requires ValidOrder(NewOrder(customer, req.products, req.customerInfo.value, req.totalPrice, req.paymentInfo, now))
    ensures PlaceOrder(products, orders, customer, req, now).result == Ok(Created(|orders|))
  {
  }

  /** One item that does not fit answers 404 or 400 before any counter is saved. */
  lemma StockFailureChangesNothing(products: Catalog, orders: seq<Order>, customer: UserId, req: OrderRequest, now: int, k: nat)
    requires WellFormed(req) && !IsRepeat(orders, req)
    requires k < |req.products| && !ItemFits(products, req.products[k])
    ensures var out := PlaceOrder(products, orders, customer, req, now);
      && out.result.Err? && HttpStatus(out.result.error) in {400, 404}
      && out.products == products && out.orders == orders
      && exists j :: 0 <= j <= k && !ItemFits(products, req.products[j]) && out.result.error == ItemFailure(products, req.products[j])
  {
    var j := FirstMisfit(products, req.products).value;
    assert j <= k;
  }

  /** Exactly when a placement creates an order. */
  lemma CreatedIff(products: Catalog, orders: seq<Order>, customer: UserId, req: OrderRequest, now: int)
    ensures var out := PlaceOrder(products, orders, customer, req, now);
      (out.result.Ok? && out.result.value.Created?) <==>
        && WellFormed(req) && !IsRepeat(orders, req)
        && (forall k :: 0 <= k < |req.products| ==> ItemFits(products, req.products[k]))
        && ValidOrder(NewOrder(customer, req.products, req.customerInfo.value, req.totalPrice, req.paymentInfo, now))
  {
  }

  /** The planned saves of an item list: counter (pid, i) is last saved by the last item that refers to it. */
  lemma LastWriteOfPlan(products: Catalog, items: seq<LineItem>, pid: ProductId, i: nat)
    requires AllFit(products, items)
    requires HasCounter(products, pid, i)
    ensures LastTarget(products, items, pid, i).None? ==> LastWrite(Plan(products, items), pid, i) == None
    ensures LastTarget(products, items, pid, i).Some? ==>
      LastWrite(Plan(products, items), pid, i) ==
        Some(StockAt(products, pid, i) - items[LastTarget(products, items, pid, i).value].quantity)
  {
    var ws := Plan(products, items);
    forall k | 0 <= k < |ws|
      ensures ws[k].pid == pid && ws[k].index == i <==> Targets(products, items[k], pid, i)
      ensures Targets(products, items[k], pid, i) ==> ws[k].stock == StockAt(products, pid, i) - items[k].quantity
    {
      PlannedWriteTargets(products, items[k], pid, i);
    }
    LastWriteOfTargets(products, items, ws, pid, i);
  }

  /** Saves that fall on (pid, i) exactly for the items referring to it: the last such item sets the counter. */
  lemma LastWriteOfTargets(products: Catalog, items: seq<LineItem>, ws: seq<StockWrite>, pid: ProductId, i: nat)
    requires HasCounter(products, pid, i) && |ws| == |items|
    requires forall k :: 0 <= k < |ws| ==> (ws[k].pid == pid && ws[k].index == i <==> Targets(products, items[k], pid, i))
    requires forall k :: 0 <= k < |ws| && Targets(products, items[k], pid, i) ==>
      ws[k].stock == StockAt(products, pid, i) - items[k].quantity
    ensures LastTarget(products, items, pid, i).None? ==> LastWrite(ws, pid, i) == None
    ensures LastTarget(products, items, pid, i).Some? ==>
      LastWrite(ws, pid, i) == Some(StockAt(products, pid, i) - items[LastTarget(products, items, pid, i).value].quantity)
  {
    match LastTarget(products, items, pid, i)
    case None =>
      LastWriteNone(ws, pid, i);
    case Some(k) =>
      LastWriteAt(ws, pid, i, k);
  }

  /** An item's planned save is on counter (pid, i) exactly when the item refers to it. */
  lemma PlannedWriteTargets(products: Catalog, item: LineItem, pid: ProductId, i: nat)
    requires ItemFits(products, item)
    ensures var w := PlannedWrite(products, item); w.pid == pid && w.index == i <==> Targets(products, item, pid, i)
  {
  }

  /**
   * The save loop: starting from `current`, each item in turn saves the stock
   * its check read from `snapshot`, minus its quantity.
   */
  function Saved(snapshot: Catalog, current: Catalog, items: seq<LineItem>): (r: Catalog)
    requires AllFit(snapshot, items) && SameCatalog(snapshot, current)
    ensures SameCatalog(snapshot, r)
    decreases |items|
  {
    if items == [] then current
    else
      var before := Saved(snapshot, current, items[..|items| - 1]);
      var w := PlannedWrite(snapshot, items[|items| - 1]);
      var r := Write(before, w);
      SameCatalogTransitive(snapshot, before, r);
      r
  }

  /** The save loop is the planned saves applied in order. */
  lemma {:induction false} SavedIsPlan(snapshot: Catalog, current: Catalog, items: seq<LineItem>)
    requires AllFit(snapshot, items) && SameCatalog(snapshot, current)
    ensures WritesFit(current, Plan(snapshot, items))
    ensures Saved(snapshot, current, items) == ApplyWrites(current, Plan(snapshot, items))
  {
    WritesFitSameCatalog(snapshot, current, Plan(snapshot, items));
    if items != [] {
      var n := |items| - 1;
      var ws := Plan(snapshot, items);
      PlanOfPrefix(snapshot, items, n);
      SavedIsPlan(snapshot, current, items[..n]);
      assert ws[..n + 1] == ws;
      ApplyWritesSnoc(current, ws, n);
    }
  }

  /** The store after the saves of a fitting item list. */
  function Stocked(products: Catalog, items: seq<LineItem>): (r: Catalog)
    requires AllFit(products, items)
    ensures SameCatalog(products, r)
  {
    Saved(products, products, items)
  }

  /**
   * As written, every item is checked against the stock read before any save,
   * and a later save of the same counter overwrites an earlier one: each
   * counter ends at its original value minus the quantity of the LAST item that
   * refers to it.
   */
  lemma StockedLastSaveWins(products: Catalog, items: seq<LineItem>, pid: ProductId, i: nat)
    requires AllFit(products, items)
    requires HasCounter(products, pid, i)
    ensures HasCounter(Stocked(products, items), pid, i)
    ensures StockAt(Stocked(products, items), pid, i) ==
              match LastTarget(products, items, pid, i)
              case None => StockAt(products, pid, i)
              case Some(k) => StockAt(products, pid, i) - items[k].quantity
  {
    SavedIsPlan(products, products, items);
    ApplyWritesStock(products, Plan(products, items), pid, i);
    LastWriteOfPlan(products, items, pid, i);
  }

  /** With distinct (product, size) keys, every counter drops by exactly the quantity asked of it. */
  lemma StockedTakesDemand(products: Catalog, items: seq<LineItem>, pid: ProductId, i: nat)
    requires AllFit(products, items) && DistinctKeys(items)
    requires HasCounter(products, pid, i)
    ensures HasCounter(Stocked(products, items), pid, i)
    ensures StockAt(Stocked(products, items), pid, i) == StockAt(products, pid, i) - Demand(products, items, pid, i)
  {
    StockedLastSaveWins(products, items, pid, i);
    DemandOfDistinct(products, items, pid, i);
  }

  /**
   * With distinct keys, the counter line item k refers to (the first entry of
   * its product with its size label) drops by exactly the item's quantity.
   */
  lemma StockedItemStock(products: Catalog, items: seq<LineItem>, k: nat, i: nat)
    requires AllFit(products, items) && DistinctKeys(items) && k < |items|
    requires Targets(products, items[k], items[k].productId, i)
    ensures Targets(Stocked(products, items), items[k], items[k].productId, i)
    ensures StockAt(Stocked(products, items), items[k].productId, i) ==
              StockAt(products, items[k].productId, i) - items[k].quantity
  {
    var it := items[k];
    var pid := it.productId;
    StockedLastSaveWins(products, items, pid, i);
    var last := LastTarget(products, items, pid, i).value;
    TargetsSameKey(products, items[last], it, pid, i);
    assert last == k;
    TargetsSameCatalog(products, Stocked(products, items), it, pid, i);
  }

  /** Saved counters never go negative: each one holds a stock that was at least the quantity, minus that quantity. */
  lemma StockedKeepsProductsValid(products: Catalog, items: seq<LineItem>)
    requires AllFit(products, items)
    requires forall pid :: pid in products ==> ValidProduct(products[pid])
    ensures forall pid :: pid in Stocked(products, items) ==> ValidProduct(Stocked(products, items)[pid])
  {
    forall pid | pid in Stocked(products, items)
      ensures ValidProduct(Stocked(products, items)[pid])
    {
      StockedProductValid(products, items, pid);
    }
  }

  lemma StockedProductValid(products: Catalog, items: seq<LineItem>, pid: ProductId)
    requires AllFit(products, items)
    requires pid in products && ValidProduct(products[pid])
    ensures pid in Stocked(products, items) && ValidProduct(Stocked(products, items)[pid])
  {
    var p, q := products[pid], Stocked(products, items)[pid];
    assert SameShape(p, q);
    forall i | 0 <= i < |q.sizes|
      ensures ValidSizeStock(q.sizes[i])
    {
      assert HasCounter(products, pid, i);
      StockedLastSaveWins(products, items, pid, i);
      assert ValidSizeStock(p.sizes[i]);
    }
  }

  /** What a successful placement leaves behind: the saved stock and exactly one new order, at the end. */
  lemma PlacementCreates(products: Catalog, orders: seq<Order>, customer: UserId, req: OrderRequest, now: int)
    requires var out := PlaceOrder(products, orders, customer, req, now); out.result.Ok? && out.result.value.Created?
    ensures WellFormed(req) && AllFit(products, req.products)
    ensures var out := PlaceOrder(products, orders, customer, req, now);
      && out.products == Stocked(products, req.products)
      && out.orders == orders + [NewOrder(customer, req.products, req.customerInfo.value, req.totalPrice, req.paymentInfo, now)]
      && out.result.value.id == |orders|
  {
    assert PlaceOrder(products, orders, customer, req, now) == Admit(products, orders, customer, req, now);
  }

  /**
   * A successful placement whose line items have distinct (product, size)
   * keys lowers every counter by exactly the quantity asked of it; counters
   * no item refers to keep their value.
   */
  lemma PlacementTakesDemand(products: Catalog, orders: seq<Order>, customer: UserId, req: OrderRequest, now: int)
    requires DistinctKeys(req.products)
    requires var out := PlaceOrder(products, orders, customer, req, now); out.result.Ok? && out.result.value.Created?
    ensures var out := PlaceOrder(products, orders, customer, req, now);
      forall pid, i :: HasCounter(products, pid, i) ==>
        HasCounter(out.products, pid, i) &&
        StockAt(out.products, pid, i) == StockAt(products, pid, i) - Demand(products, req.products, pid, i)
  {
    PlacementCreates(products, orders, customer, req, now);
    forall pid, i | HasCounter(products, pid, i)
      ensures HasCounter(Stocked(products, req.products), pid, i)
      ensures StockAt(Stocked(products, req.products), pid, i) == StockAt(products, pid, i) - Demand(products, req.products, pid, i)
    {
      StockedTakesDemand(products, req.products, pid, i);
    }
  }

  /** Placement never breaks the schema of a stored product or order. */
  lemma PlacementKeepsStoreValid(products: Catalog, orders: seq<Order>, customer: UserId, req: OrderRequest, now: int)
    requires ValidState(products, orders)
    ensures var out := PlaceOrder(products, orders, customer, req, now); ValidState(out.products, out.orders)
  {
    if WellFormed(req) && !IsRepeat(orders, req) {
      AdmitKeepsStoreValid(products, orders, customer, req, now);
    }
  }

  lemma AdmitKeepsStoreValid(products: Catalog, orders: seq<Order>, customer: UserId, req: OrderRequest, now: int)
    requires CustomerInfoGiven(req.customerInfo)
    requires ValidState(products, orders)
    ensures var out := Admit(products, orders, customer, req, now); ValidState(out.products, out.orders)
  {
    var out := Admit(products, orders, customer, req, now);
    if AllFit(products, req.products) {
      var order := NewOrder(customer, req.products, req.customerInfo.value, req.totalPrice, req.paymentInfo, now);
      StockedKeepsProductsValid(products, req.products);
      assert out.products == Stocked(products, req.products);
      if ValidOrder(order) {
        assert out.orders == orders + [order];
      }
    }
  }

  /**
   * The order document is validated only after the counters are saved: a
   * request that fails the order schema (here a five-digit phone number) is
   * answered with an error while the stock it asked for is already gone.
   */
  lemma InvalidOrderStillTakesStock()
    ensures var product := Product("Tee", "Cotton tee", 499, [], "T-Shirt", [SizeStock("M", 3)], [], 0.0, 0, false, false, false, false, 0);
      var products := map["p1" := product];
      var info := CustomerInfo("Asha", "12345", Some(Address("MG Road", "Pune", "MH", "411001")));
      var req := OrderRequest([LineItem("p1", "Tee", 499, "", 2, "M")], Some(info), 998, Some(PaymentInfo("", "", "Success", "")));
      var out := PlaceOrder(products, [], "u1", req, 0);
      out.result == Err(ValidationFailed) && out.orders == [] && StockOf(out.products, "p1", "M") == Some(1)
  {
    var product := Product("Tee", "Cotton tee", 499, [], "T-Shirt", [SizeStock("M", 3)], [], 0.0, 0, false, false, false, false, 0);
    var products := map["p1" := product];
    var item := LineItem("p1", "Tee", 499, "", 2, "M");
    assert FindSize(product.sizes, "M") == Some(0);
    assert ItemFits(products, item);
    assert Plan(products, [item]) == [StockWrite("p1", 0, 1)];
    assert [StockWrite("p1", 0, 1)][..0] == [];
    assert !ValidPhone("12345");
  }

  /**
   * Two line items for the same product and size are each checked against the
   * original stock and both pass, though together they ask for more than there
   * is; the later save wins, so four units leave a stock of three at one.
   */
  lemma RepeatedLineUndercounts()
    ensures var product := Product("Tee", "Cotton tee", 499, [], "T-Shirt", [SizeStock("M", 3)], [], 0.0, 0, false, false, false, false, 0);
      var products := map["p1" := product];
      var item := LineItem("p1", "Tee", 499, "", 2, "M");
      && AllFit(products, [item, item])
      && Demand(products, [item, item], "p1", 0) == 4 > StockAt(products, "p1", 0)
      && StockOf(Stocked(products, [item, item]), "p1", "M") == Some(1)
      && !DemandFits(products, [item, item])
  {
    var product := Product("Tee", "Cotton tee", 499, [], "T-Shirt", [SizeStock("M", 3)], [], 0.0, 0, false, false, false, false, 0);
    var products := map["p1" := product];
    var item := LineItem("p1", "Tee", 499, "", 2, "M");
    assert FindSize(product.sizes, "M") == Some(0);
    assert ItemFits(products, item);
    assert AllFit(products, [item, item]);
    assert [item, item][..1] == [item];
    assert [item][..0] == [];
    assert Targets(products, item, "p1", 0);
    assert Demand(products, [item], "p1", 0) == 2;
    assert LastTarget(products, [item, item], "p1", 0) == Some(1);
    StockedLastSaveWins(products, [item, item], "p1", 0);
    FindSizeOfSameShape(product, Stocked(products, [item, item])["p1"], "M");
  }

  /** The line items with their quantities negated: a withdrawal is a restore of the opposite amount. */
  function Withdrawal(items: seq<LineItem>): (r: seq<LineItem>)
    ensures |r| == |items|
    ensures forall k :: 0 <= k < |items| ==> r[k] == items[k].(quantity := -items[k].quantity)
  {
    if items == [] then []
    else
      var last := items[|items| - 1];
      Withdrawal(items[..|items| - 1]) + [last.(quantity := -last.quantity)]
  }

  lemma {:induction false} WithdrawalDemand(products: Catalog, items: seq<LineItem>, pid: ProductId, i: nat)
    ensures Demand(products, Withdrawal(items), pid, i) == -Demand(products, items, pid, i)
  {
    if items != [] {
      var n := |items| - 1;
      assert Withdrawal(items)[..n] == Withdrawal(items[..n]);
      WithdrawalDemand(products, items[..n], pid, i);
    }
  }

  /** Every counter holds at least the whole quantity the order asks of it, repeated lines added up. */
  ghost predicate DemandFits(products: Catalog, items: seq<LineItem>) {
    forall pid, i :: HasCounter(products, pid, i) ==> Demand(products, items, pid, i) <= StockAt(products, pid, i)
  }

  /**
   * The stock update as evidently intended: each line item re-reads its
   * counter and decrements it, so repeated lines add up instead of
   * overwriting each other.
   */
  function TakeStock(products: Catalog, items: seq<LineItem>): (r: Catalog)
    ensures SameCatalog(products, r)
  {
    Restore(products, Withdrawal(items))
  }

  /** Taking stock lowers every counter by its whole demand, with or without repeated lines. */
  lemma TakeStockTakesDemand(products: Catalog, items: seq<LineItem>, pid: ProductId, i: nat)
    requires HasCounter(products, pid, i)
    ensures HasCounter(TakeStock(products, items), pid, i)
    ensures StockAt(TakeStock(products, items), pid, i) == StockAt(products, pid, i) - Demand(products, items, pid, i)
  {
    RestoreStock(products, Withdrawal(items), pid, i);
    WithdrawalDemand(products, items, pid, i);
  }

  /**
   * When the whole demand fits, no counter goes below zero, and cancelling
   * gives back exactly the stock there was, repeated lines included.
   */
  lemma TakeStockFitsAndUndoes(products: Catalog, items: seq<LineItem>)
    requires DemandFits(products, items)
    requires forall pid, i :: HasCounter(products, pid, i) ==> StockAt(products, pid, i) >= 0
    ensures forall pid, i :: HasCounter(TakeStock(products, items), pid, i) ==> StockAt(TakeStock(products, items), pid, i) >= 0
    ensures Restore(TakeStock(products, items), items) == products
  {
    var taken := TakeStock(products, items);
    var restored := Restore(taken, items);
    SameCatalogTransitive(products, taken, restored);
    forall pid, i | HasCounter(taken, pid, i)
      ensures StockAt(taken, pid, i) >= 0
    {
      TakeStockTakesDemand(products, items, pid, i);
    }
    forall pid, i | HasCounter(products, pid, i)
      ensures StockAt(products, pid, i) == StockAt(restored, pid, i)
    {
      TakeStockTakesDemand(products, items, pid, i);
      RestoreStock(taken, items, pid, i);
      DemandSameCatalog(products, taken, items, pid, i);
    }
    CatalogExtensionality(products, restored);
  }

  /**
   * Admission as evidently intended: the order document is validated before
   * any counter is saved, so a rejected order leaves the stock alone.
   */
  function AdmitChecked(products: Catalog, orders: seq<Order>, customer: UserId, req: OrderRequest, now: int): Outcome<Placed>
    requires CustomerInfoGiven(req.customerInfo)
  {
    match FirstMisfit(products, req.products)
    case Some(k) => Outcome(Err(ItemFailure(products, req.products[k])), products, orders)
    case None =>
      var order := NewOrder(customer, req.products, req.customerInfo.value, req.totalPrice, req.paymentInfo, now);
      if !ValidOrder(order) then Outcome(Err(ValidationFailed), products, orders)
      else Outcome(Ok(Created(|orders|)), Stocked(products, req.products), orders + [order])
  }

  /**
   * The checked admission answers every request as the written one does and
   * stores the same orders; it differs only in leaving the stock untouched
   * on every error.
   */
  lemma AdmitCheckedFailsCleanly(products: Catalog, orders: seq<Order>, customer: UserId, req: OrderRequest, now: int)
    requires CustomerInfoGiven(req.customerInfo)
    ensures var fixed := AdmitChecked(products, orders, customer, req, now);
      var written := Admit(products, orders, customer, req, now);
      && fixed.result == written.result && fixed.orders == written.orders
      && (fixed.result.Err? ==> fixed.products == products)
      && (fixed.result.Ok? ==> fixed.products == written.products)
  {
  }

  /**
   * Admission as evidently intended by the stock check: an order is refused,
   * with nothing saved, unless every item fits, the whole demand on each
   * counter fits its stock, and the order document is valid; an accepted
   * order takes its whole demand from every counter.
   */
  ghost function AdmitByDemand(products: Catalog, orders: seq<Order>, customer: UserId, req: OrderRequest, now: int): Outcome<Placed>
    requires CustomerInfoGiven(req.customerInfo)
  {
    match FirstMisfit(products, req.products)
    case Some(k) => Outcome(Err(ItemFailure(products, req.products[k])), products, orders)
    case None =>
      var order := NewOrder(customer, req.products, req.customerInfo.value, req.totalPrice, req.paymentInfo, now);
      if !DemandFits(products, req.products) then Outcome(Err(DemandExceedsStock), products, orders)
      else if !ValidOrder(order) then Outcome(Err(ValidationFailed), products, orders)
      else Outcome(Ok(Created(|orders|)), TakeStock(products, req.products), orders + [order])
  }

  /**
   * The corrected admission accepts exactly the orders that fit item by item
   * and in total and pass the schema; a refused order changes nothing, and an
   * accepted one appends the order and lowers each counter by its demand.
   */
  lemma AdmitByDemandIff(products: Catalog, orders: seq<Order>, customer: UserId, req: OrderRequest, now: int)
    requires CustomerInfoGiven(req.customerInfo)
    ensures var out := AdmitByDemand(products, orders, customer, req, now);
      var order := NewOrder(customer, req.products, req.customerInfo.value, req.totalPrice, req.paymentInfo, now);
      && (out.result.Ok? <==> AllFit(products, req.products) && DemandFits(products, req.products) && ValidOrder(order))
      && (out.result.Err? ==> out.products == products && out.orders == orders)
      && (out.result.Ok? ==> out.result.value == Created(|orders|) && out.orders == orders + [order])
      && (out.result.Ok? ==> forall pid, i :: HasCounter(products, pid, i) ==>
            HasCounter(out.products, pid, i) &&
            StockAt(out.products, pid, i) == StockAt(products, pid, i) - Demand(products, req.products, pid, i))
  {
    var out := AdmitByDemand(products, orders, customer, req, now);
    if out.result.Ok? {
      forall pid, i | HasCounter(products, pid, i)
        ensures HasCounter(out.products, pid, i)
        ensures StockAt(out.products, pid, i) == StockAt(products, pid, i) - Demand(products, req.products, pid, i)
      {
        TakeStockTakesDemand(products, req.products, pid, i);
      }
    }
  }

  /**
   * From a store whose documents all pass their schema, the corrected
   * admission leaves no counter negative and keeps every document valid,
   * and cancelling an accepted order gives back exactly the stock there was.
   */
  lemma AdmitByDemandKeepsStoreValid(products: Catalog, orders: seq<Order>, customer: UserId, req: OrderRequest, now: int)
    requires CustomerInfoGiven(req.customerInfo)
    requires ValidState(products, orders)
    ensures var out := AdmitByDemand(products, orders, customer, req, now);
      && ValidState(out.products, out.orders)
      && (forall pid, i :: HasCounter(out.products, pid, i) ==> StockAt(out.products, pid, i) >= 0)
      && (out.result.Ok? ==> Restore(out.products, req.products) == products)
  {
    var out := AdmitByDemand(products, orders, customer, req, now);
    var order := NewOrder(customer, req.products, req.customerInfo.value, req.totalPrice, req.paymentInfo, now);
    NonNegativeCounters(products);
    if out.result.Ok? {
      assert DemandFits(products, req.products) && ValidOrder(order);
      assert out.products == TakeStock(products, req.products) && out.orders == orders + [order];
      TakeStockKeepsProductsValid(products, req.products);
      AppendKeepsOrdersValid(orders, order, out.orders);
    } else {
      assert out.products == products && out.orders == orders;
    }
  }

  lemma AppendKeepsOrdersValid(orders: seq<Order>, order: Order, all: seq<Order>)
    requires forall i :: 0 <= i < |orders| ==> ValidOrder(orders[i])
    requires ValidOrder(order) && all == orders + [order]
    ensures forall i :: 0 <= i < |all| ==> ValidOrder(all[i])
  {
  }

  lemma NonNegativeCounters(products: Catalog)
    requires forall pid :: pid in products ==> ValidProduct(products[pid])
    ensures forall pid, i :: HasCounter(products, pid, i) ==> StockAt(products, pid, i) >= 0
  {
    forall pid, i: nat | HasCounter(products, pid, i)
      ensures StockAt(products, pid, i) >= 0
    {
      assert ValidSizeStock(products[pid].sizes[i]);
    }
  }

  /** When the whole demand fits, taking stock keeps every product valid and cancelling undoes it. */
  lemma TakeStockKeepsProductsValid(products: Catalog, items: seq<LineItem>)
    requires forall pid :: pid in products ==> ValidProduct(products[pid])
    requires DemandFits(products, items)
    ensures forall pid :: pid in TakeStock(products, items) ==> ValidProduct(TakeStock(products, items)[pid])
    ensures forall pid, i :: HasCounter(TakeStock(products, items), pid, i) ==> StockAt(TakeStock(products, items), pid, i) >= 0
    ensures Restore(TakeStock(products, items), items) == products
  {
    NonNegativeCounters(products);
    TakeStockFitsAndUndoes(products, items);
    forall pid | pid in TakeStock(products, items)
      ensures ValidProduct(TakeStock(products, items)[pid])
    {
      TakeStockProductValid(products, items, pid);
    }
  }

  /** A product whose counters stay non-negative after taking stock still passes its schema. */
  lemma TakeStockProductValid(products: Catalog, items: seq<LineItem>, pid: ProductId)
    requires pid in products && ValidProduct(products[pid])
    requires forall q, i :: HasCounter(TakeStock(products, items), q, i) ==> StockAt(TakeStock(products, items), q, i) >= 0
    ensures pid in TakeStock(products, items) && ValidProduct(TakeStock(products, items)[pid])
  {
    var p, q := products[pid], TakeStock(products, items)[pid];
    assert SameShape(p, q);
    forall i | 0 <= i < |q.sizes|
      ensures ValidSizeStock(q.sizes[i])
    {
      assert HasCounter(TakeStock(products, items), pid, i);
      assert ValidSizeStock(p.sizes[i]);
    }
  }

  /**
   * The first loop of createOrder: look up every item's product and size and
   * compare stock with quantity, stopping at the first item that does not fit;
   * nothing is saved. On success, the saves the second loop will make.
   */
  method CheckStock(products: Catalog, items: seq<LineItem>) returns (r: Result<seq<StockWrite>, Failure>)
    ensures r.Ok? <==> AllFit(products, items)
    ensures r.Ok? ==> r.value == Plan(products, items)
    ensures r.Err? ==>
              FirstMisfit(products, items).Some? &&
              r.error == ItemFailure(products, items[FirstMisfit(products, items).value])
  {
    var checks: seq<StockWrite> := [];
    var k := 0;
    while k < |items|
      invariant 0 <= k <= |items|
      invariant AllFit(products, items[..k])
      invariant checks == Plan(products, items[..k])
    {
      var item := items[k];
      assert items[..k + 1] == items[..k] + [item];
      if item.productId !in products {
        assert FirstMisfit(products, items) == Some(k) by { FirstMisfitAt(products, items, k); }
        return Err(ProductNotFound(item.productId));
      }
      var product := products[item.productId];
      var found := FindSize(product.sizes, item.size);
      if found.None? || product.sizes[found.value].stock < item.quantity {
        assert FirstMisfit(products, items) == Some(k) by { FirstMisfitAt(products, items, k); }
        return Err(ItemFailure(products, item));
      }
      checks := checks + [StockWrite(item.productId, found.value, product.sizes[found.value].stock - item.quantity)];
      k := k + 1;
    }
    assert items[..k] == items;
    return Ok(checks);
  }

  /** FirstMisfit names the first item that does not fit. */
  lemma FirstMisfitAt(products: Catalog, items: seq<LineItem>, k: nat)
    requires k < |items| && AllFit(products, items[..k]) && !ItemFits(products, items[k])
    ensures FirstMisfit(products, items) == Some(k)
  {
  }

  /** The second loop of createOrder: each planned save is made in turn. */
  method SaveStock(products: Catalog, writes: seq<StockWrite>) returns (saved: Catalog)
    requires WritesFit(products, writes)
    ensures saved == ApplyWrites(products, writes)
  {
    saved := products;
    var j := 0;
    while j < |writes|
      invariant 0 <= j <= |writes|
      invariant saved == ApplyWrites(products, writes[..j])
    {
      ApplyWritesSnoc(products, writes, j);
      saved := Write(saved, writes[j]);
      j := j + 1;
    }
    assert writes[..j] == writes;
  }

  /** The stock loops and the insert of createOrder, once the request has passed its checks. */
  method AdmitOrder(db: Database, customer: UserId, req: OrderRequest, now: int) returns (r: Result<Placed, Failure>)
    requires CustomerInfoGiven(req.customerInfo)
    modifies db
    ensures Outcome(r, db.products, db.orders) == Admit(old(db.products), old(db.orders), customer, req, now)
  {
    var checked := CheckStock(db.products, req.products);
    if checked.Err? {
      return Err(checked.error);
    }
    SavedIsPlan(db.products, db.products, req.products);
    var saved := SaveStock(db.products, checked.value);
    db.products := saved;

    var order := NewOrder(customer, req.products, req.customerInfo.value, req.totalPrice, req.paymentInfo, now);
    if !ValidOrder(order) {
      return Err(ValidationFailed);
    }
    db.orders := db.orders + [order];
    r := Ok(Created(|db.orders| - 1));
  }

  /** createOrder: the handler's checks, its two loops and the final insert, proved to compute PlaceOrder. */
  method CreateOrder(db: Database, customer: UserId, req: OrderRequest, now: int) returns (r: Result<Placed, Failure>)
    requires db.Valid()
    modifies db
    ensures db.Valid()
    ensures Outcome(r, db.products, db.orders) == PlaceOrder(old(db.products), old(db.orders), customer, req, now)
  {
    PlacementKeepsStoreValid(db.products, db.orders, customer, req, now);
    if |req.products| == 0 {
      return Err(NoProducts);
    }
    if !CustomerInfoGiven(req.customerInfo) {
      return Err(IncompleteCustomerInfo);
    }
    if !PaymentConfirmed(req.paymentInfo) {
      return Err(PaymentVerificationRequired);
    }
    var gatewayOrderId := req.paymentInfo.value.cashfreeOrderId;
    if gatewayOrderId != [] {
      var existing := FindByGatewayOrder(db.orders, gatewayOrderId);
      if existing.Some? {
        return Ok(Existing(existing.value));
      }
    }

    r := AdmitOrder(db, customer, req, now);
  }

  // ---------------------------------------------------------------------
  // getOrder

  /** `getOrder`: the stored order, for its owner or an admin only. */
  function GetOrder(orders: seq<Order>, requester: UserId, isAdmin: bool, id: nat): (r: Result<Order, Failure>)
    ensures r.Ok? <==> id < |orders| && (orders[id].customerId == requester || isAdmin)
    ensures r.Ok? ==> r.value == orders[id]
    ensures r.Err? ==> r.error == if id < |orders| then NotAuthorized else OrderNotFound
  {
    if id >= |orders| then Err(OrderNotFound)
    else if orders[id].customerId != requester && !isAdmin then Err(NotAuthorized)
    else Ok(orders[id])
  }

  // ---------------------------------------------------------------------
  // cancelOrder

  /**
   * cancelOrder as written: 404, 403, then 400 for a shipped, delivered or
   * already cancelled order; otherwise every line item's stock is given back
   * (each product re-read, missing products and sizes skipped) and the order
   * is saved as Cancelled.
   */
  function Cancel(products: Catalog, orders: seq<Order>, requester: UserId, id: nat, now: int): (r: Outcome<Order>)
    ensures SameCatalog(products, r.products)
    ensures |r.orders| == |orders|
    ensures forall j :: 0 <= j < |orders| && j != id ==> r.orders[j] == orders[j]
    ensures r.result.Err? ==> r.products == products && r.orders == orders
    ensures r.result.Ok? ==> id < |orders| && r.orders[id] == r.result.value && r.result.value.status == Cancelled
  {
    if id >= |orders| then Outcome(Err(OrderNotFound), products, orders)
    else
      var order := orders[id];
      if order.customerId != requester then Outcome(Err(NotAuthorized), products, orders)
      else if order.status == Shipped || order.status == Delivered then Outcome(Err(AlreadyShipped), products, orders)
      else if order.status == Cancelled then Outcome(Err(AlreadyCancelled), products, orders)
      else
        var cancelled := Touch(order.(status := Cancelled), now);
        Outcome(Ok(cancelled), Restore(products, order.products), orders[id := cancelled])
  }

  /** Every refusal of a cancellation is sent with the status the handler uses and changes nothing. */
  lemma CancelFailureChangesNothing(products: Catalog, orders: seq<Order>, requester: UserId, id: nat, now: int)
    ensures var out := Cancel(products, orders, requester, id, now);
      out.result.Err? ==>
        && out.products == products && out.orders == orders
        && HttpStatus(out.result.error) ==
             (if id >= |orders| then 404 else if orders[id].customerId != requester then 403 else 400)
    ensures var out := Cancel(products, orders, requester, id, now);
      out.result.Ok? <==> id < |orders| && orders[id].customerId == requester && orders[id].status == Pending
  {
  }

  /**
   * A cancellation gives every counter back the whole quantity the order's
   * line items ask of it, marks exactly that order Cancelled and stamps it.
   */
  lemma CancelRestoresDemand(products: Catalog, orders: seq<Order>, requester: UserId, id: nat, now: int)
    requires Cancel(products, orders, requester, id, now).result.Ok?
    ensures var out := Cancel(products, orders, requester, id, now);
      && |out.orders| == |orders| && out.orders[id].status == Cancelled && out.orders[id].updatedAt == now
      && out.orders[id].products == orders[id].products
      && (forall j :: 0 <= j < |orders| && j != id ==> out.orders[j] == orders[j])
      && (forall pid, i :: HasCounter(products, pid, i) ==>
            HasCounter(out.products, pid, i) &&
            StockAt(out.products, pid, i) == StockAt(products, pid, i) + Demand(products, orders[id].products, pid, i))
  {
    forall pid, i | HasCounter(products, pid, i)
      ensures HasCounter(Restore(products, orders[id].products), pid, i)
      ensures StockAt(Restore(products, orders[id].products), pid, i) ==
                StockAt(products, pid, i) + Demand(products, orders[id].products, pid, i)
    {
      RestoreStock(products, orders[id].products, pid, i);
    }
  }

  /** Cancelling the same order twice: the second request is refused and changes nothing. */
  lemma SecondCancelFails(products: Catalog, orders: seq<Order>, requester: UserId, id: nat, now: int, later: int)
    requires Cancel(products, orders, requester, id, now).result.Ok?
    ensures var out := Cancel(products, orders, requester, id, now);
      Cancel(out.products, out.orders, requester, id, later) == Outcome(Err(AlreadyCancelled), out.products, out.orders)
  {
  }

  /** Restoring stock never breaks a product's schema: counters only grow. */
  lemma RestoreKeepsProductsValid(products: Catalog, items: seq<LineItem>)
    requires forall pid :: pid in products ==> ValidProduct(products[pid])
    requires forall k :: 0 <= k < |items| ==> items[k].quantity >= 1
    ensures forall pid :: pid in Restore(products, items) ==> ValidProduct(Restore(products, items)[pid])
  {
    forall pid | pid in Restore(products, items)
      ensures ValidProduct(Restore(products, items)[pid])
    {
      RestoreProductValid(products, items, pid);
    }
  }

  lemma RestoreProductValid(products: Catalog, items: seq<LineItem>, pid: ProductId)
    requires pid in products && ValidProduct(products[pid])
    requires forall k :: 0 <= k < |items| ==> items[k].quantity >= 1
    ensures pid in Restore(products, items) && ValidProduct(Restore(products, items)[pid])
  {
    var p, q := products[pid], Restore(products, items)[pid];
    assert SameShape(p, q);
    forall i | 0 <= i < |q.sizes|
      ensures ValidSizeStock(q.sizes[i])
    {
      assert HasCounter(products, pid, i);
      RestoreStock(products, items, pid, i);
      assert ValidSizeStock(p.sizes[i]);
    }
  }

  /** Cancellation never breaks the schema of a stored product or order. */
  lemma CancelKeepsStoreValid(products: Catalog, orders: seq<Order>, requester: UserId, id: nat, now: int)
    requires ValidState(products, orders)
    ensures var out := Cancel(products, orders, requester, id, now); ValidState(out.products, out.orders)
  {
    var out := Cancel(products, orders, requester, id, now);
    if out.result.Ok? {
      var order := orders[id];
      ValidityIgnoresStatus(order, Cancelled, now);
      RestoreKeepsProductsValid(products, order.products);
      forall i | 0 <= i < |out.orders|
        ensures ValidOrder(out.orders[i])
      {
        if i != id {
          assert out.orders[i] == orders[i];
        }
      }
    }
  }

  /**
   * Placing an order whose line items have distinct (product, size) keys and
   * then cancelling it gives back exactly the products the store started with.
   */
  lemma CancelUndoesPlacement(products: Catalog, orders: seq<Order>, customer: UserId, req: OrderRequest, now: int, later: int)
    requires DistinctKeys(req.products)
    requires var out := PlaceOrder(products, orders, customer, req, now); out.result.Ok? && out.result.value.Created?
    ensures var placed := PlaceOrder(products, orders, customer, req, now);
      var undone := Cancel(placed.products, placed.orders, customer, |orders|, later);
      undone.result.Ok? && undone.products == products
  {
    PlacementCreates(products, orders, customer, req, now);
    var placed := PlaceOrder(products, orders, customer, req, now);
    var order := placed.orders[|orders|];
    assert order.customerId == customer && order.status == Pending && order.products == req.products;
    CancelPendingRestores(placed.products, placed.orders, customer, |orders|, later);
    RestoreUndoesStocked(products, req.products);
  }

  /** The owner's cancellation of a pending order succeeds and restores that order's line items. */
  lemma CancelPendingRestores(products: Catalog, orders: seq<Order>, requester: UserId, id: nat, now: int)
    requires id < |orders| && orders[id].customerId == requester && orders[id].status == Pending
    ensures Cancel(products, orders, requester, id, now).result.Ok?
    ensures Cancel(products, orders, requester, id, now).products == Restore(products, orders[id].products)
  {
  }

  /** With distinct keys, giving back the demand of the items undoes their saves exactly. */
  lemma RestoreUndoesStocked(products: Catalog, items: seq<LineItem>)
    requires AllFit(products, items) && DistinctKeys(items)
    ensures Restore(Stocked(products, items), items) == products
  {
    var stocked := Stocked(products, items);
    var restored := Restore(stocked, items);
    SameCatalogTransitive(products, stocked, restored);
    forall pid, i | HasCounter(products, pid, i)
      ensures StockAt(products, pid, i) == StockAt(restored, pid, i)
    {
      StockedTakesDemand(products, items, pid, i);
      RestoreStock(stocked, items, pid, i);
      DemandSameCatalog(products, stocked, items, pid, i);
    }
    CatalogExtensionality(products, restored);
  }

  /** One pass of the restore loop: re-read the product, find the size entry, add the quantity back and save. */
  method RestoreOne(products: Catalog, item: LineItem) returns (restored: Catalog)
    ensures restored == RestoreItem(products, item)
  {
    if item.productId !in products {
      return products;
    }
    var product := products[item.productId];
    var found := FindSize(product.sizes, item.size);
    if found.None? {
      return products;
    }
    RestoreItemFound(products, item, found.value);
    return Write(products, StockWrite(item.productId, found.value, product.sizes[found.value].stock + item.quantity));
  }

  /** The restore loop of cancelOrder: each line item re-reads its product and adds its quantity back. */
  method RestoreStockLoop(products: Catalog, items: seq<LineItem>) returns (restored: Catalog)
    ensures restored == Restore(products, items)
  {
    restored := products;
    var k := 0;
    while k < |items|
      invariant 0 <= k <= |items|
      invariant restored == Restore(products, items[..k])
    {
      RestoreSnoc(products, items, k);
      restored := RestoreOne(restored, items[k]);
      k := k + 1;
    }
    assert items[..k] == items;
  }

  /** cancelOrder: the guards, the restore loop and the save of the order, proved to compute Cancel. */
  method CancelOrder(db: Database, requester: UserId, id: nat, now: int) returns (r: Result<Order, Failure>)
    requires db.Valid()
    modifies db
    ensures db.Valid()
    ensures Outcome(r, db.products, db.orders) == Cancel(old(db.products), old(db.orders), requester, id, now)
  {
    CancelKeepsStoreValid(db.products, db.orders, requester, id, now);
    if id >= |db.orders| {
      return Err(OrderNotFound);
    }
    var order := db.orders[id];
    if order.customerId != requester {
      return Err(NotAuthorized);
    }
    if order.status == Shipped || order.status == Delivered {
      return Err(AlreadyShipped);
    }
    if order.status == Cancelled {
      return Err(AlreadyCancelled);
    }
    var restored := RestoreStockLoop(db.products, order.products);
    db.products := restored;
    var cancelled := Touch(order.(status := Cancelled), now);
    db.orders := db.orders[id := cancelled];
    r := Ok(cancelled);
  }

  // ---------------------------------------------------------------------
  // updateOrderStatus

  /** updateOrderStatus as written: the status string is checked against the enum before the lookup; any transition is allowed. */
  function UpdateStatus(products: Catalog, orders: seq<Order>, status: string, id: nat, now: int): (r: Outcome<Order>)
    ensures r.products == products
    ensures |r.orders| == |orders|
    ensures forall j :: 0 <= j < |orders| && j != id ==> r.orders[j] == orders[j]
    ensures r.result.Err? ==> r.orders == orders
    ensures r.result.Ok? ==> id < |orders| && r.orders[id] == r.result.value
  {
    match ParseStatus(status)
    case None => Outcome(Err(InvalidStatus), products, orders)
    case Some(st) =>
      if id >= |orders| then Outcome(Err(OrderNotFound), products, orders)
      else
        var updated := Touch(orders[id].(status := st), now);
        Outcome(Ok(updated), products, orders[id := updated])
  }

  /**
   * A string outside the enum is refused with 400 whether or not the order
   * exists; a known status is set exactly, from any current status, on that
   * order only, and the products are never touched.
   */
  lemma UpdateStatusSetsExactly(products: Catalog, orders: seq<Order>, status: string, id: nat, now: int)
    ensures var out := UpdateStatus(products, orders, status, id, now);
      && out.products == products
      && (out.result.Err? ==> out.orders == orders)
      && (ParseStatus(status).None? ==> out.result == Err(InvalidStatus))
      && (ParseStatus(status).Some? && id >= |orders| ==> out.result == Err(OrderNotFound))
      && (out.result.Ok? <==> ParseStatus(status).Some? && id < |orders|)
      && (out.result.Ok? ==>
            && |out.orders| == |orders|
            && StatusName(out.orders[id].status) == status
            && out.orders[id] == Touch(orders[id].(status := out.orders[id].status), now)
            && forall j :: 0 <= j < |orders| && j != id ==> out.orders[j] == orders[j])
  {
  }

  /** No transition check: every status can follow every other. */
  lemma AnyTransitionAllowed(products: Catalog, orders: seq<Order>, id: nat, from: Status, to: Status, now: int)
    requires id < |orders| && orders[id].status == from
    ensures var out := UpdateStatus(products, orders, StatusName(to), id, now);
      out.result.Ok? && out.orders[id].status == to
  {
    ParseStatusName(to);
  }

  /** A status update never breaks the schema of a stored order. */
  lemma UpdateStatusKeepsStoreValid(products: Catalog, orders: seq<Order>, status: string, id: nat, now: int)
    requires ValidState(products, orders)
    ensures var out := UpdateStatus(products, orders, status, id, now); ValidState(out.products, out.orders)
  {
    if ParseStatus(status).Some? && id < |orders| {
      ValidityIgnoresStatus(orders[id], ParseStatus(status).value, now);
    }
  }

  /** updateOrderStatus: the enum check, the lookup and the save, proved to compute UpdateStatus. */
  method UpdateOrderStatus(db: Database, status: string, id: nat, now: int) returns (r: Result<Order, Failure>)
    requires db.Valid()
    modifies db
    ensures db.Valid()
    ensures Outcome(r, db.products, db.orders) == UpdateStatus(old(db.products), old(db.orders), status, id, now)
  {
    UpdateStatusKeepsStoreValid(db.products, db.orders, status, id, now);
    var st := ParseStatus(status);
    if st.None? {
      return Err(InvalidStatus);
    }
    if id >= |db.orders| {
      return Err(OrderNotFound);
    }
    var updated := Touch(db.orders[id].(status := st.value), now);
    db.orders := db.orders[id := updated];
    r := Ok(updated);
  }

  // ---------------------------------------------------------------------
  // addOrderReview

  /**
   * addOrderReview as written: 404 for a missing order, 403 for another
   * user's order, 400 unless Delivered, 404 for a missing product, 400 for a
   * second review by the same user, and a failed review schema reaches the
   * error handler; otherwise the review is pushed and the aggregates
   * recomputed. Whether the product is in the order is never checked.
   */
  function ReviewFromOrder(products: Catalog, orders: seq<Order>, user: UserId, userName: string, id: nat,
                           pid: ProductId, rating: real, comment: string, now: int): (r: Outcome<()>)
    ensures r.orders == orders
    ensures r.products.Keys == products.Keys
    ensures forall q :: q in products && q != pid ==> r.products[q] == products[q]
    ensures r.result.Err? ==> r.products == products
    ensures r.result.Ok? ==> pid in products && r.products[pid].reviews == products[pid].reviews + [Review(user, userName, rating, comment, now)]
  {
    if id >= |orders| then Outcome(Err(OrderNotFound), products, orders)
    else if orders[id].customerId != user then Outcome(Err(NotAuthorized), products, orders)
    else if orders[id].status != Delivered then Outcome(Err(NotDelivered), products, orders)
    else if pid !in products then Outcome(Err(ProductNotFound(pid)), products, orders)
    else if ReviewedBy(products[pid].reviews, user) then Outcome(Err(AlreadyReviewed), products, orders)
    else
      var review := Review(user, userName, rating, comment, now);
      if !ValidReview(review) then Outcome(Err(ValidationFailed), products, orders)
      else Outcome(Ok(()), products[pid := WithReview(products[pid], review)], orders)
  }

  /**
   * The review path succeeds exactly for the owner of a delivered order, an
   * existing product the user has not reviewed, and a review that passes the
   * schema; the product need not be one of the order's line items.
   */
  lemma ReviewFromOrderIff(products: Catalog, orders: seq<Order>, user: UserId, userName: string, id: nat,
                           pid: ProductId, rating: real, comment: string, now: int)
    ensures var out := ReviewFromOrder(products, orders, user, userName, id, pid, rating, comment, now);
      out.result.Ok? <==>
        && id < |orders| && orders[id].customerId == user && orders[id].status == Delivered
        && pid in products && !ReviewedBy(products[pid].reviews, user)
        && ValidReview(Review(user, userName, rating, comment, now))
    ensures var out := ReviewFromOrder(products, orders, user, userName, id, pid, rating, comment, now);
      out.result.Err? ==> out.products == products && out.orders == orders
  {
  }

  /**
   * A successful review changes only the reviewed product: one review more,
   * `numReviews` its length, `rating` the mean in [1, 5], still at most one
   * review per user.
   */
  lemma ReviewFromOrderAggregates(products: Catalog, orders: seq<Order>, user: UserId, userName: string, id: nat,
                                  pid: ProductId, rating: real, comment: string, now: int)
    requires ValidState(products, orders) && pid in products && OneReviewPerUser(products[pid].reviews)
    requires ReviewFromOrder(products, orders, user, userName, id, pid, rating, comment, now).result.Ok?
    ensures var out := ReviewFromOrder(products, orders, user, userName, id, pid, rating, comment, now);
      && out.orders == orders && out.products.Keys == products.Keys
      && (forall other :: other in products && other != pid ==> out.products[other] == products[other])
      && var q := out.products[pid];
      && q.reviews == products[pid].reviews + [Review(user, userName, rating, comment, now)]
      && q.numReviews == |q.reviews| && q.rating == MeanRating(q.reviews)
      && 1.0 <= q.rating <= 5.0
      && OneReviewPerUser(q.reviews)
      && ValidState(out.products, out.orders)
  {
    WithReviewKeepsOnePerUser(products[pid], Review(user, userName, rating, comment, now));
    WithReviewKeepsValid(products[pid], Review(user, userName, rating, comment, now));
  }

  /** addOrderReview: the guards, the push and the save, proved to compute ReviewFromOrder. */
  method AddOrderReview(db: Database, user: UserId, userName: string, id: nat,
                        pid: ProductId, rating: real, comment: string, now: int) returns (r: Result<(), Failure>)
    requires db.Valid()
    modifies db
    ensures db.Valid()
    ensures Outcome(r, db.products, db.orders) == ReviewFromOrder(old(db.products), old(db.orders), user, userName, id, pid, rating, comment, now)
  {
    if id >= |db.orders| {
      return Err(OrderNotFound);
    }
    var order := db.orders[id];
    if order.customerId != user {
      return Err(NotAuthorized);
    }
    if order.status != Delivered {
      return Err(NotDelivered);
    }
    if pid !in db.products {
      return Err(ProductNotFound(pid));
    }
    var product := db.products[pid];
    if ReviewedBy(product.reviews, user) {
      return Err(AlreadyReviewed);
    }
    var review := Review(user, userName, rating, comment, now);
    if !ValidReview(review) {
      return Err(ValidationFailed);
    }
    WithReviewKeepsValid(product, review);
    db.products := db.products[pid := WithReview(product, review)];
    r := Ok(());
  }
}
