// The catalogue handlers (backend/controllers/productController.js): the
// filter and ordering of the product listing, the capped highlight lists,
// the verified-purchase predicate, product creation behind the
// duplicate-name guard, and reviews from verified buyers.
module ProductController {
  import opened Results
  import opened Strings
  import opened ProductModel
  import opened OrderModel
  import opened Store
  import opened Inventory

  /**
   * The query string of `GET /api/products`. An empty string is a parameter
   * that was not given (JavaScript treats it as false); a price bound is
   * `None` when absent.
   */
  datatype ProductQuery = ProductQuery(
    category: string,
    size: string,
    minPrice: Option<int>,
    maxPrice: Option<int>,
    sort: string,
    search: string)

  /** The search term matches one of name, description or category, ignoring case. */
  predicate MatchesSearch(p: Product, term: string) {
    ContainsIgnoreCase(p.name, term) || ContainsIgnoreCase(p.description, term) || ContainsIgnoreCase(p.category, term)
  }

  predicate HasSizeLabel(p: Product, size: string) {
    exists i :: 0 <= i < |p.sizes| && p.sizes[i].size == size
  }

  /** The Mongo filter the handler builds: every given condition must hold, bounds inclusive. */
  predicate Matches(q: ProductQuery, p: Product)
    ensures Matches(q, p) && q.minPrice.Some? && q.maxPrice.Some? ==> q.minPrice.value <= q.maxPrice.value
    ensures q.search == [] && q.category == [] && q.size == [] && q.minPrice.None? && q.maxPrice.None? ==> Matches(q, p)
  {
    && (q.search != [] ==> MatchesSearch(p, q.search))
    && (q.category != [] ==> p.category == q.category)
    && (q.size != [] ==> HasSizeLabel(p, q.size))
    && (q.minPrice.Some? ==> q.minPrice.value <= p.price)
    && (q.maxPrice.Some? ==> p.price <= q.maxPrice.value)
  }

  /**
   * The products of `s` that `keep` accepts, in their order in `s`: every
   * accepted product is kept as often as it occurs, every other is dropped.
   */
  function Select(s: seq<Product>, keep: Product -> bool): (r: seq<Product>)
    ensures |r| <= |s|
    ensures forall i :: 0 <= i < |r| ==> keep(r[i])
    ensures forall p :: multiset(r)[p] == if keep(p) then multiset(s)[p] else 0
  {
    if s == [] then []
    else
      var n := |s| - 1;
      var front := Select(s[..n], keep);
      assert s == s[..n] + [s[n]];
      if keep(s[n]) then
        var r := front + [s[n]];
        assert forall i :: 0 <= i < |front| ==> r[i] == front[i];
        r
      else front
  }

  /** The `sort` parameter: three named orders, anything else means newest first. */
  datatype SortMode = PriceAscending | PriceDescending | RatingDescending | NewestFirst

  function ParseSort(s: string): SortMode {
    if s == "price_asc" then PriceAscending
    else if s == "price_desc" then PriceDescending
    else if s == "rating" then RatingDescending
    else NewestFirst
  }

  /** `a` may be listed before `b` under the sort key of `mode`. */
  predicate Before(mode: SortMode, a: Product, b: Product) {
    match mode
    case PriceAscending => a.price <= b.price
    case PriceDescending => a.price >= b.price
    case RatingDescending => a.rating >= b.rating
    case NewestFirst => a.createdAt >= b.createdAt
  }

  predicate Sorted(mode: SortMode, s: seq<Product>) {
    forall i, j :: 0 <= i < j < |s| ==> Before(mode, s[i], s[j])
  }

  /** Insert `x` into a list ordered by `mode`, after every product it may not precede. */
  function Insert(mode: SortMode, x: Product, s: seq<Product>): (r: seq<Product>)
    ensures multiset(r) == multiset(s) + multiset{x}
    ensures forall j :: 0 <= j < |r| ==> r[j] == x || r[j] in s
  {
    if s == [] then [x]
    else if Before(mode, x, s[0]) then [x] + s
    else
      assert s == [s[0]] + s[1..];
      [s[0]] + Insert(mode, x, s[1..])
  }

  /** Insertion keeps a list ordered. */
  lemma {:induction false} InsertSorted(mode: SortMode, x: Product, s: seq<Product>)
    requires Sorted(mode, s)
    ensures Sorted(mode, Insert(mode, x, s))
  {
    if s != [] && !Before(mode, x, s[0]) {
      var rest := Insert(mode, x, s[1..]);
      InsertSorted(mode, x, s[1..]);
      forall j | 0 <= j < |rest|
        ensures Before(mode, s[0], rest[j])
      {
        if rest[j] != x {
          var k :| 0 <= k < |s[1..]| && s[1..][k] == rest[j];
          assert s[k + 1] == rest[j];
        }
      }
      var r := [s[0]] + rest;
      assert forall j :: 1 <= j < |r| ==> r[j] == rest[j - 1];
    }
  }

  /** The listing in the order `mode` asks for, built by insertion. */
  function SortBy(mode: SortMode, s: seq<Product>): (r: seq<Product>)
    ensures multiset(r) == multiset(s)
    ensures Sorted(mode, r)
  {
    if s == [] then []
    else
      assert s == [s[0]] + s[1..];
      var rest := SortBy(mode, s[1..]);
      InsertSorted(mode, s[0], rest);
      Insert(mode, s[0], rest)
  }

  /**
   * getProducts: the stored catalogue `all` (in its natural order) filtered
   * by the query and ordered by its `sort` parameter. The result lists
   * exactly the matching products, each as often as it is stored, in the
   * requested order.
   */
  function GetProducts(q: ProductQuery, all: seq<Product>): (r: seq<Product>)
    ensures Sorted(ParseSort(q.sort), r)
    ensures forall i :: 0 <= i < |r| ==> Matches(q, r[i])
    ensures forall p :: multiset(r)[p] == if Matches(q, p) then multiset(all)[p] else 0
  {
    var chosen := Select(all, p => Matches(q, p));
    var r := SortBy(ParseSort(q.sort), chosen);
    assert forall i :: 0 <= i < |r| ==> r[i] in multiset(chosen);
    r
  }

  /** A stored product is listed iff it passes every given filter. */
  lemma ListedIffMatches(q: ProductQuery, all: seq<Product>, p: Product)
    requires p in all
    ensures p in GetProducts(q, all) <==> Matches(q, p)
  {
    var r := GetProducts(q, all);
    assert p in multiset(all);
    assert p in r <==> p in multiset(r);
  }

  /** A query that gives no parameter lists the whole catalogue, newest first. */
  lemma EmptyQueryListsAll(all: seq<Product>)
    ensures var r := GetProducts(ProductQuery([], [], None, None, [], []), all);
      multiset(r) == multiset(all) && Sorted(NewestFirst, r)
  {
    var r := GetProducts(ProductQuery([], [], None, None, [], []), all);
    assert forall p :: multiset(r)[p] == multiset(all)[p];
  }

  /** The four highlight lists and the flag each one selects on. */
  datatype Highlight = Featured | NewArrivals | Trending | BestSellers

  predicate Flagged(h: Highlight, p: Product) {
    match h
    case Featured => p.featured
    case NewArrivals => p.isNewArrival
    case Trending => p.isTrending
    case BestSellers => p.isBestSeller
  }

  /** The `limit` of each list: six featured products, eight of the others. */
  function Limit(h: Highlight): nat {
    if h == Featured then 6 else 8
  }

  /**
   * `Product.find({flag: true}).limit(n)`: the first flagged products in the
   * natural order, no more than the limit, and all of them when there are
   * fewer.
   */
  function Highlights(h: Highlight, all: seq<Product>): (r: seq<Product>)
    ensures |r| <= Limit(h)
    ensures forall i :: 0 <= i < |r| ==> Flagged(h, r[i])
    ensures var flagged := Select(all, p => Flagged(h, p));
      |r| <= |flagged| && r == flagged[..|r|] && (|r| < Limit(h) ==> r == flagged)
  {
    var flagged := Select(all, p => Flagged(h, p));
    if |flagged| <= Limit(h) then flagged else flagged[..Limit(h)]
  }

  predicate PaymentSucceeded(o: Order) {
    o.paymentInfo.Some? && o.paymentInfo.value.paymentStatus == "Success"
  }

  predicate Contains(o: Order, pid: ProductId) {
    exists j :: 0 <= j < |o.products| && o.products[j].productId == pid
  }

  /**
   * An order that proves a purchase: placed by the user, listing the
   * product, paid, and not cancelled. The status enum has no "Failed", so
   * excluding "Cancelled" and "Failed" leaves every status but Cancelled.
   */
  predicate ProvesPurchase(o: Order, user: UserId, pid: ProductId) {
    o.customerId == user && Contains(o, pid) && PaymentSucceeded(o) && o.status != Cancelled
  }

  /** checkPurchase: whether any stored order proves the purchase, searched from the first. */
  function HasPurchased(orders: seq<Order>, user: UserId, pid: ProductId): (r: bool)
    ensures r <==> exists i :: 0 <= i < |orders| && ProvesPurchase(orders[i], user, pid)
  {
    if orders == [] then false
    else if ProvesPurchase(orders[0], user, pid) then true
    else
      var rest := HasPurchased(orders[1..], user, pid);
      assert forall i :: 1 <= i < |orders| ==> orders[i] == orders[1..][i - 1];
      rest
  }

  /** Cancelling an order withdraws the proof of purchase it gave. */
  lemma CancelledOrderProvesNothing(orders: seq<Order>, user: UserId, pid: ProductId, id: nat)
    requires id < |orders|
    requires forall i :: 0 <= i < |orders| && i != id ==> !ProvesPurchase(orders[i], user, pid)
    ensures !HasPurchased(orders[id := orders[id].(status := Cancelled)], user, pid)
  {
    var after := orders[id := orders[id].(status := Cancelled)];
    assert forall i :: 0 <= i < |after| ==> !ProvesPurchase(after[i], user, pid);
  }

  /** What a catalogue handler answers, and the product collection afterwards. */
  datatype Change<T> = Change(result: Result<T, Failure>, products: Catalog)

  /**
   * The duplicate-name guard: some stored product's name equals the
   * requested name, ignoring case (the anchored, case-insensitive pattern
   * `^name$`).
   */
  predicate NameTaken(products: Catalog, name: string) {
    exists pid :: pid in products && EqualsIgnoreCase(products[pid].name, name)
  }

  /**
   * createProduct as written: the guard compares the name exactly as sent,
   * while the schema trims the name before it is stored; a draft the schema
   * rejects reaches the error handler. `newId` is the id the store assigns.
   */
  function CreateProductAsWritten(products: Catalog, d: ProductDraft, newId: ProductId, now: int): (c: Change<ProductId>)
    requires newId !in products
    ensures c.result.Ok? <==> !NameTaken(products, d.name) && ValidDraft(d)
    ensures c.result.Err? ==> c.products == products
    ensures c.result.Err? ==> c.result.error == (if NameTaken(products, d.name) then DuplicateName else ValidationFailed)
    ensures c.result.Ok? ==> c.result.value == newId && c.products == products[newId := MakeProduct(d, now)]
  {
    DraftAcceptedIffValid(d, now);
    if NameTaken(products, d.name) then Change(Err(DuplicateName), products)
    else
      var p := MakeProduct(d, now);
      if !ValidProduct(p) then Change(Err(ValidationFailed), products)
      else Change(Ok(newId), products[newId := p])
  }

  /** No two stored products have names that are equal ignoring case. */
  predicate DistinctNames(products: Catalog) {
    forall a, b :: a in products && b in products && a != b ==> !EqualsIgnoreCase(products[a].name, products[b].name)
  }

  /**
   * A name sent with a leading space passes the guard although the trimmed
   * name it is stored under is already taken: the catalogue ends up with two
   * products called "Tee".
   */
  lemma PaddedNameSlipsThrough()
    ensures var existing := Product("Tee", "cotton", 500, [], "T-Shirt", [], [], 0.0, 0, false, false, false, false, 0);
      var products := map["p1" := existing];
      var d := ProductDraft(" Tee", "cotton", 500, [], "T-Shirt", [], None, None, None, None, None, None);
      var c := CreateProductAsWritten(products, d, "p2", 1);
      && DistinctNames(products)
      && c.result == Ok("p2")
      && c.products["p2"].name == c.products["p1"].name
      && !DistinctNames(c.products)
  {
    var existing := Product("Tee", "cotton", 500, [], "T-Shirt", [], [], 0.0, 0, false, false, false, false, 0);
    var products := map["p1" := existing];
    var d := ProductDraft(" Tee", "cotton", 500, [], "T-Shirt", [], None, None, None, None, None, None);
    PaddedTee();
    assert !NameTaken(products, d.name);
    assert ValidDraft(d);
    var c := CreateProductAsWritten(products, d, "p2", 1);
    assert c.products["p2"].name == "Tee";
  }

  /** " Tee" trims to "Tee" but differs from it even ignoring case. */
  lemma PaddedTee()
    ensures Trim(" Tee") == "Tee" && !EqualsIgnoreCase("Tee", " Tee")
  {
    var tee := " Tee"[1..];
    assert tee == "Tee";
    assert !IsSpace(tee[0]) && !IsSpace(tee[|tee| - 1]);
    assert TrimStart(tee) == tee;
    assert TrimStart(" Tee") == TrimStart(tee);
    assert TrimEnd(tee) == tee;
  }

  /**
   * createProduct with the guard applied to the name that will be stored
   * (the trimmed one).
   */
  function CreateProduct(products: Catalog, d: ProductDraft, newId: ProductId, now: int): (c: Change<ProductId>)
    requires newId !in products
    ensures c.result.Ok? <==> !NameTaken(products, Trim(d.name)) && ValidDraft(d)
    ensures c.result.Err? ==> c.products == products
    ensures c.result.Ok? ==> c.result.value == newId && c.products == products[newId := MakeProduct(d, now)]
  {
    DraftAcceptedIffValid(d, now);
    if NameTaken(products, Trim(d.name)) then Change(Err(DuplicateName), products)
    else
      var p := MakeProduct(d, now);
      if !ValidProduct(p) then Change(Err(ValidationFailed), products)
      else Change(Ok(newId), products[newId := p])
  }

  /** With the guard on the stored name, creation never introduces two names equal ignoring case. */
  lemma CreateProductKeepsNamesDistinct(products: Catalog, d: ProductDraft, newId: ProductId, now: int)
    requires newId !in products && DistinctNames(products)
    ensures DistinctNames(CreateProduct(products, d, newId, now).products)
  {
    var c := CreateProduct(products, d, newId, now);
    if c.result.Ok? {
      var after := c.products;
      forall a, b | a in after && b in after && a != b
        ensures !EqualsIgnoreCase(after[a].name, after[b].name)
      {
        if a == newId {
          assert after[a].name == Trim(d.name);
          assert !EqualsIgnoreCase(products[b].name, Trim(d.name));
        } else if b == newId {
          assert after[b].name == Trim(d.name);
          assert !EqualsIgnoreCase(products[a].name, Trim(d.name));
        }
      }
    }
  }

  /** createProduct: the duplicate-name query, then `Product.create`, on the store as written. */
  method AddProduct(db: Database, d: ProductDraft, newId: ProductId, now: int) returns (r: Result<ProductId, Failure>)
    requires db.Valid() && newId !in db.products
    modifies db
    ensures db.Valid() && db.orders == old(db.orders)
    ensures Change(r, db.products) == CreateProductAsWritten(old(db.products), d, newId, now)
  {
    if exists pid :: pid in db.products && EqualsIgnoreCase(db.products[pid].name, d.name) {
      return Err(DuplicateName);
    }
    var p := MakeProduct(d, now);
    if !ValidProduct(p) {
      return Err(ValidationFailed);
    }
    db.products := db.products[newId := p];
    r := Ok(newId);
  }

  /**
   * addReview: 404 for a missing product, 403 unless the user has a
   * purchase on record, 400 for a second review by the same user, and a
   * review the schema rejects reaches the error handler; otherwise the
   * review is pushed and the count and mean recomputed.
   */
  function ReviewProduct(products: Catalog, orders: seq<Order>, user: UserId, userName: string,
                         pid: ProductId, rating: real, comment: string, now: int): (r: Change<()>)
    ensures r.products.Keys == products.Keys
    ensures forall q :: q in products && q != pid ==> r.products[q] == products[q]
    ensures r.result.Err? ==> r.products == products
    ensures r.result.Ok? ==> pid in products && r.products[pid].reviews == products[pid].reviews + [Review(user, userName, rating, comment, now)]
  {
    if pid !in products then Change(Err(ProductNotFound(pid)), products)
    else if !HasPurchased(orders, user, pid) then Change(Err(NotPurchased), products)
    else if ReviewedBy(products[pid].reviews, user) then Change(Err(AlreadyReviewed), products)
    else
      var review := Review(user, userName, rating, comment, now);
      if !ValidReview(review) then Change(Err(ValidationFailed), products)
      else Change(Ok(()), products[pid := WithReview(products[pid], review)])
  }

  /**
   * A review is accepted exactly from a verified buyer who has not reviewed
   * the product yet, with a rating in [1, 5]; a refusal changes nothing and
   * is sent with 404, 403 or 400 in that order of precedence, a failed
   * schema check going last to the error handler.
   */
  lemma ReviewProductIff(products: Catalog, orders: seq<Order>, user: UserId, userName: string,
                         pid: ProductId, rating: real, comment: string, now: int)
    ensures var c := ReviewProduct(products, orders, user, userName, pid, rating, comment, now);
      c.result.Ok? <==>
        && pid in products
        && (exists i :: 0 <= i < |orders| && ProvesPurchase(orders[i], user, pid))
        && !ReviewedBy(products[pid].reviews, user)
        && ValidReview(Review(user, userName, rating, comment, now))
    ensures var c := ReviewProduct(products, orders, user, userName, pid, rating, comment, now);
      c.result.Err? ==>
        && c.products == products
        && HttpStatus(c.result.error) ==
             if pid !in products then 404
             else if !HasPurchased(orders, user, pid) then 403
             else if ReviewedBy(products[pid].reviews, user) then 400
             else 500
  {
  }

  /**
   * An accepted review changes only the reviewed product: one review more,
   * `numReviews` its length, `rating` the mean in [1, 5], still one review
   * per user, every document still valid.
   */
  lemma ReviewProductAggregates(products: Catalog, orders: seq<Order>, user: UserId, userName: string,
                                pid: ProductId, rating: real, comment: string, now: int)
    requires ValidState(products, orders) && pid in products && OneReviewPerUser(products[pid].reviews)
    requires ReviewProduct(products, orders, user, userName, pid, rating, comment, now).result.Ok?
    ensures var c := ReviewProduct(products, orders, user, userName, pid, rating, comment, now);
      && c.products.Keys == products.Keys
      && (forall other :: other in products && other != pid ==> c.products[other] == products[other])
      && var q := c.products[pid];
      && q.reviews == products[pid].reviews + [Review(user, userName, rating, comment, now)]
      && q.numReviews == |q.reviews| && q.rating == MeanRating(q.reviews)
      && 1.0 <= q.rating <= 5.0
      && OneReviewPerUser(q.reviews)
      && ValidState(c.products, orders)
  {
    WithReviewKeepsOnePerUser(products[pid], Review(user, userName, rating, comment, now));
    WithReviewKeepsValid(products[pid], Review(user, userName, rating, comment, now));
  }

  /** A second review of the same product by the same user is always refused. */
  lemma SecondReviewRefused(products: Catalog, orders: seq<Order>, user: UserId, userName: string,
                            pid: ProductId, rating: real, comment: string, now: int,
                            rating2: real, comment2: string, later: int)
    requires ReviewProduct(products, orders, user, userName, pid, rating, comment, now).result.Ok?
    ensures var c := ReviewProduct(products, orders, user, userName, pid, rating, comment, now);
      ReviewProduct(c.products, orders, user, userName, pid, rating2, comment2, later).result == Err(AlreadyReviewed)
  {
    var c := ReviewProduct(products, orders, user, userName, pid, rating, comment, now);
    var reviews := c.products[pid].reviews;
    assert reviews[|reviews| - 1].user == user;
  }

  /** addReview: the lookups, the push and the save, proved to compute ReviewProduct. */
  method AddReview(db: Database, user: UserId, userName: string,
                   pid: ProductId, rating: real, comment: string, now: int) returns (r: Result<(), Failure>)
    requires db.Valid()
    modifies db
    ensures db.Valid() && db.orders == old(db.orders)
    ensures Change(r, db.products) == ReviewProduct(old(db.products), old(db.orders), user, userName, pid, rating, comment, now)
  {
    if pid !in db.products {
      return Err(ProductNotFound(pid));
    }
    var product := db.products[pid];
    var purchased := HasPurchased(db.orders, user, pid);
    if !purchased {
      return Err(NotPurchased);
    }
    if ReviewedBy(product.reviews, user) {
      return Err(AlreadyReviewed);
    }
    var review := Review(user, userName, rating, comment, now);
    if !ValidReview(review) {
      return Err(ValidationFailed);
    }
    WithReviewKeepsValid(product, review);
    db.products := db.products[pid := WithReview(product, review)];
    r := Ok(());
  }
}
