# T-shirt store: orders, stock, catalogue, cart and helpers in Dafny

This project models the rules of an online clothing store. The backend keeps
products, each with a counter of stock per size and a list of reviews, and
orders, each with line items, customer details, payment details and a status.
The frontend keeps a shopping cart and renders star ratings and a product page.
The model covers:

- **Order handlers** (`OrderController`). Placing an order:
  - request checks;
  - the duplicate-payment short cut;
  - the stock check of every line item, then the stock saves;
  - the creation of the order document.

  Also: reading an order, the review of a product from a delivered order,
  cancellation with stock restoration, and the admin status update. Each
  handler is a method on a `Database` object (a product map and an order list)
  with `modifies` clauses. It is proved to compute a function from the old
  store to a response and a new store. The properties are lemmas about that
  function.
- **Stock algebra** (`Inventory`): saves of single counters, the
  re-read-and-add restore, and the total demand a list of line items places on
  a counter.
- **Schemas** (`OrderModel`, `ProductModel`): the validators and defaults of
  the two document types, the `updatedAt` hook, and the `totalStock` sum.
- **Catalogue handlers** (`ProductController`):
  - filtering and sorting of the product listing;
  - the four capped highlight lists;
  - the verified-purchase check;
  - the duplicate-name guard on product creation;
  - product reviews.
- **Cart** (`Cart`): the updaters of the cart list and its total and count.
- **Response cache** (`Cache`): the GET cache and its three clearing
  operations, as a class over a key-to-body map.
- **Mail** (`Email`): the retry loop with exponential back-off, and the
  subject lines.
- **UI rules** (`Rating`, `ProductDetail`): the five-star display, the
  add-to-cart guard, the quantity buttons and the size buttons.

Clocks, fresh ids, the requesting user, whether the requester is an admin, the
route handler's answer behind the cache, and the mail service's answers are
all parameters.

## Model

| member | source | states |
|---|---|---|
| OrderModel.ParseStatus | backend/models/Order.js:64-68 | A string is accepted exactly when it is one of the four status names, and it maps back to that name. |
| OrderModel.ParseStatusName | backend/models/Order.js:64-68 | Every status name is accepted as its own status. |
| OrderModel.NewOrder | backend/models/Order.js:64-76 | A created order is Pending, both stamps are the creation time, and every other field is as given. |
| OrderModel.Touch | backend/models/Order.js:80-83 | A save sets `updatedAt` to the current time and changes nothing else. |
| OrderModel.ValidityIgnoresStatus | backend/models/Order.js:64-83 | Setting any enum status and saving never changes whether an order passes its schema. |
| OrderModel.PhoneLengthMatters | backend/models/Order.js:14-36 | A valid phone has exactly ten digits: one digit more or fewer is refused, and no valid phone is a valid six-digit pincode. |
| ProductModel.TotalStock | backend/models/Product.js:98-100 | With valid counters, `totalStock` is non-negative and at least each single counter. |
| ProductModel.TotalStockAfterSet | backend/models/Product.js:98-100 | Replacing one counter moves `totalStock` by exactly the difference. |
| ProductModel.ZeroStockTotal | backend/models/Product.js:98-100 | All-zero counters give a `totalStock` of zero. |
| ProductModel.FindSize | backend/controllers/orderController.js:65 | Finds the index of the first size entry with the label, and answers none exactly when no entry has it. |
| ProductModel.WithReview | backend/controllers/orderController.js:238-240 | A review is pushed, `numReviews` becomes the list length, `rating` becomes the mean, and every other field is kept. |
| ProductModel.RatingSumBounds | backend/models/Product.js:13-18 | The ratings of n valid reviews sum to between n and 5n. |
| ProductModel.MeanRatingBounds | backend/models/Product.js:13-18 | The mean of valid reviews lies in [1, 5]. |
| ProductModel.WithReviewKeepsOnePerUser | backend/controllers/orderController.js:219-240 | A review from a user with no review yet keeps one review per user. |
| ProductModel.WithReviewKeepsValid | backend/models/Product.js:3-95 | A valid review keeps a valid product valid, with its rating in [1, 5]. |
| ProductModel.SizeWithDefault | backend/models/Product.js:53-64 | A submitted size entry keeps its label, and its stock is the given count or 0. |
| ProductModel.MakeProduct | backend/models/Product.js:29-95 | `Product.create` stores the trimmed name and the description, price, images and category as given. Each size entry is the submitted one with its stock defaulted to 0. There are no reviews. Rating, `numReviews` and the four flags are as given or 0 / false. `createdAt` is the creation time. |
| ProductModel.DefaultsOfBareDraft | backend/models/Product.js:59-90 | A draft that gives no counts, flags or aggregates yields a `totalStock` of 0, rating 0, `numReviews` 0, every flag false and `createdAt` the creation time. |
| ProductModel.DraftAcceptedIffValid | backend/models/Product.js:29-95 | A draft is accepted exactly when the document built from it, defaults included, passes every validator. |
| Strings.Contains | backend/middleware/cache.js:56 | `includes` is true exactly when the pattern occurs at some index. |
| Strings.LastChars | backend/config/email.js:51 | `slice(-n)` yields the last n characters, or the whole string when it is shorter. |
| Strings.Trim | backend/models/Product.js:33 | The trimmed name is a stretch of the name with only white space cut from either end. Neither of its ends is white space, and it is empty exactly when the name is all white space. |
| Inventory.Write | backend/controllers/orderController.js:84-85 | A save sets one counter to the given value, and the catalogue keeps its shape. |
| Inventory.WriteKeepsOthers | backend/controllers/orderController.js:84-85 | A save changes no other counter. |
| Inventory.ApplyWrites | backend/controllers/orderController.js:82-86 | A sequence of saves keeps the catalogue's products, sizes and every non-stock field. |
| Inventory.ApplyWritesStock | backend/controllers/orderController.js:82-86 | After the saves, each counter holds its last saved value, or its old value when never saved. |
| Inventory.LastTarget | backend/controllers/orderController.js:82-86 | Finds the last line item that refers to a counter, and answers none when no item does. |
| Inventory.Demand | backend/controllers/orderController.js:82-86 | The quantity a list of line items asks of one counter is never negative for positive quantities, and 0 when no item names that counter. |
| Inventory.DemandOfDistinct | backend/controllers/orderController.js:82-86 | With distinct (product, size) keys, a counter's demand is the quantity of its one referring item, or 0. |
| Inventory.RestoreItem | backend/controllers/orderController.js:293-299 | Restoring one item changes only stock counters. |
| Inventory.RestoreItemStock | backend/controllers/orderController.js:293-299 | Restoring one item adds its quantity to the counter it refers to, and to no other. |
| Inventory.RestoreItemFound | backend/controllers/orderController.js:293-299 | When the product and size exist, the restore saves the re-read stock plus the quantity. |
| Inventory.Restore | backend/controllers/orderController.js:291-301 | Restoring a list of items changes only stock counters. |
| Inventory.RestoreStock | backend/controllers/orderController.js:291-301 | Every counter gains the whole demand of the items, repeated lines included. Missing products and sizes are skipped. |
| OrderController.FindByGatewayOrder | backend/controllers/orderController.js:37-39 | Finds the first stored order with the gateway id, and answers none exactly when no order has it. |
| OrderController.PlannedWrite | backend/controllers/orderController.js:65-85 | An item that fits saves its counter as the stock read at check time minus its quantity, which is at least 0. |
| OrderController.ItemFailure | backend/controllers/orderController.js:58-72 | A missing product is answered with 404; a missing size or short stock with 400. |
| OrderController.FirstMisfit | backend/controllers/orderController.js:55-79 | Finds the first line item that does not fit, every earlier one fitting; answers none exactly when all fit. |
| OrderController.Plan | backend/controllers/orderController.js:74-86 | One planned save per line item, in order, each on an existing counter. |
| OrderController.PlaceOrder | backend/controllers/orderController.js:8-123 | createOrder changes only stock counters. A refusal stores no order. A repeated gateway id returns an existing order and changes nothing. A created order gets the next id, and exactly one order is appended. |
| OrderController.Admit | backend/controllers/orderController.js:54-95 | After the request checks, only stock counters change. A refusal stores no order. Success appends exactly the new order document under the next id. |
| OrderController.MalformedRequestChangesNothing | backend/controllers/orderController.js:13-33 | An empty product list, incomplete customer info or an unconfirmed payment is answered with 400 and changes nothing. |
| OrderController.RepeatReturnsStoredOrder | backend/controllers/orderController.js:36-51 | A repeated gateway order id returns the stored order with that id, and nothing is saved. |
| OrderController.NoGatewayIdNoDuplicateCheck | backend/controllers/orderController.js:36-51 | Without a gateway id there is no duplicate lookup: a well-formed request that fits creates a new order at the end. |
| OrderController.StockFailureChangesNothing | backend/controllers/orderController.js:54-79 | A line item that does not fit is answered with 404 or 400 for the first misfit at or before it, and stock and orders are untouched. |
| OrderController.CreatedIff | backend/controllers/orderController.js:13-95 | An order is created exactly when the request is well formed and not a repeat, every item fits, and the order passes its schema. |
| OrderController.LastWriteOfPlan | backend/controllers/orderController.js:82-86 | The last planned save of a counter is the original stock minus the quantity of the last item that refers to it. |
| OrderController.Saved | backend/controllers/orderController.js:82-86 | The save loop keeps the catalogue's shape. |
| OrderController.SavedIsPlan | backend/controllers/orderController.js:82-86 | The save loop is the planned saves applied in order. |
| OrderController.Stocked | backend/controllers/orderController.js:82-86 | The stock after placement differs from the original only in counters. |
| OrderController.StockedLastSaveWins | backend/controllers/orderController.js:54-86 | Each counter ends at its original stock minus the quantity of the last item that refers to it. |
| OrderController.StockedTakesDemand | backend/controllers/orderController.js:82-86 | With distinct keys, every counter drops by exactly its demand. |
| OrderController.StockedItemStock | backend/controllers/orderController.js:82-86 | With distinct keys, each item's counter drops by exactly that item's quantity. |
| OrderController.StockedKeepsProductsValid | backend/controllers/orderController.js:67-86 | Saved counters never go negative, so every product stays valid. |
| OrderController.StockedProductValid | backend/controllers/orderController.js:67-86 | Each single product stays valid through the saves. |
| OrderController.PlacementCreates | backend/controllers/orderController.js:82-95 | A created order means the request fit, the stock is the saved stock, and exactly one order was appended with the new id. |
| OrderController.PlacementTakesDemand | backend/controllers/orderController.js:82-95 | A placement with distinct keys lowers every counter by exactly its demand. |
| OrderController.PlacementKeepsStoreValid | backend/controllers/orderController.js:8-123 | Placement never stores an invalid product or order. |
| OrderController.AdmitKeepsStoreValid | backend/controllers/orderController.js:54-95 | The stock check, the saves and the insert never store an invalid product or order. |
| OrderController.InvalidOrderStillTakesStock | backend/controllers/orderController.js:82-95 | An order that fails its schema (a five-digit phone) is refused while its stock is already taken. |
| OrderController.RepeatedLineUndercounts | backend/controllers/orderController.js:54-86 | Two lines of 2 against a stock of 3 both pass although they ask for 4; the stock ends at 1. |
| OrderController.Withdrawal | backend/controllers/orderController.js:82-86 | The same line items with their quantities negated. |
| OrderController.WithdrawalDemand | backend/controllers/orderController.js:82-86 | Negated items place the negated demand on every counter. |
| OrderController.TakeStock | backend/controllers/orderController.js:82-86 | Taking stock, as evidently intended, changes only counters. |
| OrderController.TakeStockTakesDemand | backend/controllers/orderController.js:82-86 | Taking stock lowers every counter by its whole demand, repeated lines included. |
| OrderController.TakeStockFitsAndUndoes | backend/controllers/orderController.js:82-86 | When the whole demand fits, no counter goes negative, and restoring the items gives back exactly the original store. |
| OrderController.AdmitChecked | backend/controllers/orderController.js:54-95 | Validates before saving. A misfit is answered with its item failure; an invalid order with a validation error and untouched stock. |
| OrderController.AdmitCheckedFailsCleanly | backend/controllers/orderController.js:54-95 | Gives the same answers and orders as the code as written, with no stock change on any error. |
| OrderController.AdmitByDemandIff | backend/controllers/orderController.js:54-95 | The corrected admission accepts an order exactly when every item fits, the summed demand on each counter fits its stock, and the order is valid. A refusal changes nothing. An acceptance appends the order and lowers each counter by its whole demand. |
| OrderController.AdmitByDemandKeepsStoreValid | backend/controllers/orderController.js:54-95 | From a valid store, the corrected admission leaves every counter non-negative and every document valid. Cancelling an accepted order gives back exactly the original stock. |
| OrderController.TakeStockKeepsProductsValid | backend/controllers/orderController.js:82-86 | When the summed demand fits, taking stock keeps every product valid, and restoring undoes it. |
| OrderController.TakeStockProductValid | backend/controllers/orderController.js:82-86 | A product whose counters stay non-negative after taking stock stays valid. |
| OrderController.CheckStock | backend/controllers/orderController.js:54-79 | The check loop succeeds exactly when every item fits, yields the planned saves, and on failure names the first misfit. |
| OrderController.SaveStock | backend/controllers/orderController.js:82-86 | The save loop applies the planned saves in order. |
| OrderController.AdmitOrder | backend/controllers/orderController.js:54-95 | The two loops and the insert leave the store and the response that `Admit` defines. |
| OrderController.CreateOrder | backend/controllers/orderController.js:8-123 | createOrder keeps the store valid and leaves exactly the response and store of `PlaceOrder`. |
| OrderController.GetOrder | backend/controllers/orderController.js:147-166 | The order is returned exactly to its owner or an admin; otherwise 403, or 404 for a missing order. |
| OrderController.Cancel | backend/controllers/orderController.js:256-313 | Cancellation changes only stock counters and the one order. A refusal changes nothing. On success that order is Cancelled and is the order returned. |
| OrderController.CancelFailureChangesNothing | backend/controllers/orderController.js:258-289 | Refusals are 404, 403, then 400, and change nothing. A cancellation succeeds exactly for the owner of a Pending order. |
| OrderController.CancelRestoresDemand | backend/controllers/orderController.js:291-304 | Every counter gains the order's whole demand, and only that order becomes Cancelled and is stamped. |
| OrderController.SecondCancelFails | backend/controllers/orderController.js:284-289 | Cancelling a cancelled order is refused and changes nothing. |
| OrderController.RestoreKeepsProductsValid | backend/controllers/orderController.js:291-301 | Restoring positive quantities keeps every product valid. |
| OrderController.RestoreProductValid | backend/controllers/orderController.js:291-301 | Restoring keeps each single product valid. |
| OrderController.CancelKeepsStoreValid | backend/controllers/orderController.js:256-313 | Cancellation never stores an invalid product or order. |
| OrderController.CancelPendingRestores | backend/controllers/orderController.js:258-301 | The owner's cancellation of a Pending order succeeds and restores exactly that order's items. |
| OrderController.RestoreUndoesStocked | backend/controllers/orderController.js:291-301 | With distinct keys, restoring the items undoes the placement's saves exactly. |
| OrderController.CancelUndoesPlacement | backend/controllers/orderController.js:291-301 | Placing an order with distinct keys and then cancelling it gives back exactly the original products. |
| OrderController.RestoreOne | backend/controllers/orderController.js:293-299 | One pass of the restore loop computes `RestoreItem`. |
| OrderController.RestoreStockLoop | backend/controllers/orderController.js:292-301 | The restore loop computes `Restore`. |
| OrderController.CancelOrder | backend/controllers/orderController.js:256-313 | cancelOrder keeps the store valid and leaves exactly the response and store of `Cancel`. |
| OrderController.UpdateStatus | backend/controllers/orderController.js:338-359 | A status update never touches products or any other order. A refusal changes nothing, and on success the stored order is the one returned. |
| OrderController.UpdateStatusSetsExactly | backend/controllers/orderController.js:342-359 | An unknown status is answered with 400 before the lookup. A known status is set exactly on that order only, and products never change. |
| OrderController.AnyTransitionAllowed | backend/controllers/orderController.js:358-359 | Every status can be set from every status. |
| OrderController.UpdateStatusKeepsStoreValid | backend/controllers/orderController.js:338-359 | A status update never stores an invalid order. |
| OrderController.UpdateOrderStatus | backend/controllers/orderController.js:338-359 | updateOrderStatus keeps the store valid and leaves exactly the response and store of `UpdateStatus`. |
| OrderController.ReviewFromOrder | backend/controllers/orderController.js:180-251 | The review path never touches orders or any other product. A refusal changes nothing, and success appends exactly the new review to that product. |
| OrderController.ReviewFromOrderIff | backend/controllers/orderController.js:186-242 | A review succeeds exactly when all of these hold: owner, Delivered, existing product, no earlier review, valid review. The product need not be in the order, and a refusal changes nothing. |
| OrderController.ReviewFromOrderAggregates | backend/controllers/orderController.js:231-242 | Only the reviewed product changes: one review more, the count and mean recomputed, the mean in [1, 5], one review per user. |
| OrderController.AddOrderReview | backend/controllers/orderController.js:180-251 | addOrderReview keeps the store valid and leaves exactly the response and store of `ReviewFromOrder`. |
| ProductController.Select | backend/controllers/productController.js:12-38 | The filter keeps every accepted product as often as it occurs and drops every other product. |
| ProductController.Matches | backend/controllers/productController.js:12-38 | A product can match only when the price bounds are consistent, and a query with no parameters matches every product. |
| ProductController.Insert | backend/controllers/productController.js:41-49 | Insertion adds exactly one copy of the product. |
| ProductController.InsertSorted | backend/controllers/productController.js:41-49 | Insertion keeps a list ordered by the sort key. |
| ProductController.SortBy | backend/controllers/productController.js:41-49 | The listing is a permutation of its input, ordered by the requested key. |
| ProductController.GetProducts | backend/controllers/productController.js:7-51 | The result is ordered as `sort` asks, every product in it matches every given filter, and each matching product is listed as often as it is stored. |
| ProductController.ListedIffMatches | backend/controllers/productController.js:15-35 | A stored product is listed exactly when it passes the search and every given filter. |
| ProductController.EmptyQueryListsAll | backend/controllers/productController.js:40-49 | With no parameters, the whole catalogue is listed newest first. |
| ProductController.Highlights | backend/controllers/productController.js:179-242 | At most 6 featured or 8 other products are listed, all flagged, taken from the front of the flagged ones; all of them when there are fewer. |
| ProductController.HasPurchased | backend/controllers/productController.js:253-262 | True exactly when some order is the user's, lists the product, is paid and is not cancelled. |
| ProductController.CancelledOrderProvesNothing | backend/controllers/productController.js:253-258 | Cancelling the only order that proved a purchase withdraws the proof. |
| ProductController.CreateProductAsWritten | backend/controllers/productController.js:94-105 | As written, creation succeeds exactly when no stored name equals the raw name ignoring case and the draft is valid; a refusal changes nothing. |
| ProductController.PaddedNameSlipsThrough | backend/controllers/productController.js:94-105 | " Tee" passes the guard next to a stored "Tee", and two products called "Tee" result. |
| ProductController.CreateProduct | backend/controllers/productController.js:94-105 | With the guard on the trimmed name, creation succeeds exactly when no stored name equals it ignoring case and the draft is valid. |
| ProductController.CreateProductKeepsNamesDistinct | backend/controllers/productController.js:94-105 | The trimmed guard keeps all names distinct ignoring case. |
| ProductController.AddProduct | backend/controllers/productController.js:89-105 | createProduct keeps the store valid, leaves orders alone, and computes `CreateProductAsWritten`. |
| ProductController.ReviewProductIff | backend/controllers/productController.js:278-312 | A review is accepted exactly from a verified buyer with no earlier review and a valid rating. Refusals are 404, 403, then 400, then the schema failure passed to the error handler, and change nothing. |
| ProductController.ReviewProductAggregates | backend/controllers/productController.js:314-327 | Only the product changes: one review appended, the count and mean recomputed, the mean in [1, 5], the store valid. |
| ProductController.SecondReviewRefused | backend/controllers/productController.js:302-312 | A second review by the same user is refused. |
| ProductController.ReviewProduct | backend/controllers/productController.js:272-327 | A review touches no other product. A refusal changes nothing, and success appends exactly the new review. |
| ProductController.AddReview | backend/controllers/productController.js:272-327 | addReview keeps the store valid, leaves orders alone, and computes `ReviewProduct`. |
| Cart.MapKey | frontend/src/context/CartContext.jsx:55-61 | Only entries with the key change, their quantity raised or set; every other entry is kept. |
| Cart.AddToCart | frontend/src/context/CartContext.jsx:15-41 | An existing key has only its quantity raised and the length is kept. A new key appends one entry with the product's id, name, price and first image. |
| Cart.AddOne | frontend/src/context/CartContext.jsx:15-41 | Called without a quantity, addToCart uses 1: a new key is appended with quantity 1, and an existing entry grows by one. |
| Cart.AddOneCountsOne | frontend/src/context/CartContext.jsx:15-41 | With one entry per key, the default add keeps that and raises the count by exactly one. |
| Cart.RemoveFromCart | frontend/src/context/CartContext.jsx:43-47 | No entry with the key is left, and every remaining entry comes from the cart. |
| Cart.UpdateQuantity | frontend/src/context/CartContext.jsx:49-62 | A quantity of 0 or less is `removeFromCart`. Otherwise only the keyed entries get the quantity. |
| Cart.ClearCart | frontend/src/context/CartContext.jsx:64-66 | The cleared cart is empty, with total and count 0. |
| Cart.CartTotal | frontend/src/context/CartContext.jsx:68-70 | Non-negative prices and quantities give a non-negative total. |
| Cart.CartCount | frontend/src/context/CartContext.jsx:72-74 | Non-negative quantities give a count that is non-negative and at least each single quantity. |
| Cart.MapKeyAbsent | frontend/src/context/CartContext.jsx:55-61 | An update matching no entry changes nothing. |
| Cart.BumpCount | frontend/src/context/CartContext.jsx:22-26 | With one entry per key, merging raises the count by the quantity. |
| Cart.AddToCartCount | frontend/src/context/CartContext.jsx:15-41 | After `addToCart(p, s, q)` the count grows by exactly q. |
| Cart.AddNewTotal | frontend/src/context/CartContext.jsx:29-39 | A new entry raises the total by price times quantity. |
| Cart.AddToCartKeepsUnique | frontend/src/context/CartContext.jsx:15-41 | addToCart keeps one entry per (product, size). |
| Cart.UpdateQuantityKeepsUnique | frontend/src/context/CartContext.jsx:49-62 | updateQuantity keeps one entry per (product, size). |
| Cart.RemoveKeepsUnique | frontend/src/context/CartContext.jsx:43-47 | removeFromCart keeps one entry per (product, size). |
| Cart.RemoveKeepsOthers | frontend/src/context/CartContext.jsx:43-47 | Every entry without the key survives as often as it occurred. |
| Cart.RemoveAbsent | frontend/src/context/CartContext.jsx:43-47 | Removing an absent key changes nothing. |
| Cart.RemoveKeepsOrder | frontend/src/context/CartContext.jsx:43-47 | With unique keys, removal deletes exactly the keyed entry and keeps the others in order. |
| Cart.RemoveUndoesAdd | frontend/src/context/CartContext.jsx:15-47 | Removing a key just added as new restores the cart. |
| Rating.Stars | frontend/src/components/Rating.jsx:8-22 | Five slots. Slot i is full exactly when the value is at least i, half exactly when it is in [i - 0.5, i), and empty otherwise. |
| Rating.StarsOrdered | frontend/src/components/Rating.jsx:8-22 | Full slots come before the half slot, which comes before empty slots. There is at most one half slot. |
| Rating.StarsExtremes | frontend/src/components/Rating.jsx:9-21 | A value of 5 or more gives five full stars; below 0.5 gives five empty stars. |
| Rating.FullStarsAreFloor | frontend/src/components/Rating.jsx:8-22 | The number of full stars is the value rounded down, clamped to 0..5. |
| Rating.HalfStarIff | frontend/src/components/Rating.jsx:8-22 | A half star shows exactly for values in [0.5, 5) whose fraction is at least one half. |
| Rating.Caption | frontend/src/components/Rating.jsx:23 | The caption is shown exactly for a non-empty text. |
| ProductDetail.HandleAddToCart | frontend/src/pages/ProductDetail.jsx:41-55 | With no size, the answer is "select a size". A missing entry or short stock is "insufficient stock". Only then is the item added, exactly once, and the cart is otherwise unchanged. |
| ProductDetail.AddedGrowsCount | frontend/src/pages/ProductDetail.jsx:47-54 | A successful add grows the count by the quantity and keeps keys unique, and the size had that much stock. |
| ProductDetail.DetailPage.constructor | frontend/src/pages/ProductDetail.jsx:16-17 | The quantity starts at 1 with no size selected. |
| ProductDetail.DetailPage.Decrement | frontend/src/pages/ProductDetail.jsx:129 | The "-" button lowers the quantity by one, but never below 1. |
| ProductDetail.DetailPage.Increment | frontend/src/pages/ProductDetail.jsx:131 | The "+" button adds one to the quantity. |
| ProductDetail.DetailPage.ClickSize | frontend/src/pages/ProductDetail.jsx:115-117 | A size is selected only when it has stock; the new selection is the one-click step `ClickedSize` that `AfterClicks` folds. |
| ProductDetail.DetailPage.AddToCartClicked | frontend/src/pages/ProductDetail.jsx:41-55 | Clicking "Add to Cart" applies the guard to the page state. The count grows on success; otherwise the cart is unchanged. |
| ProductDetail.ClicksSelectStockedSizes | frontend/src/pages/ProductDetail.jsx:115-117 | After any clicks, the selection is empty or a clicked size with positive stock. |
| Cache.CacheKey | backend/middleware/cache.js:22 | The key is `__express__` followed by the request URL. |
| Cache.CacheKeyInjective | backend/middleware/cache.js:22 | Two requests share a key exactly when they resolve to the same URL. |
| Cache.Respond | backend/middleware/cache.js:14-46 | A non-GET request bypasses the cache. A hit answers the cached body without the handler. A miss runs the handler and stores its body only on status 200. |
| Cache.RepeatedGetHits | backend/middleware/cache.js:25-44 | After a successful GET, the same request is answered from the cache, whatever the handler would answer. |
| Cache.OnlySuccessfulGetsStored | backend/middleware/cache.js:17-44 | Only a status-200 GET that missed ever changes the cache, by adding its own key. |
| Cache.ClearedPatternMisses | backend/middleware/cache.js:54-64 | After clearing by a pattern, a request whose key contains it misses. |
| Cache.ResponseCache.constructor | backend/middleware/cache.js:4-8 | The cache starts empty. |
| Cache.ResponseCache.Serve | backend/middleware/cache.js:14-46 | The middleware on one request computes `Respond`. |
| Cache.ResponseCache.ClearCacheByPattern | backend/middleware/cache.js:54-64 | Deletes exactly the keys containing the pattern, keeps every other entry, and returns their number. |
| Cache.ResponseCache.ClearCache | backend/middleware/cache.js:70-72 | Deletes only the key and answers 1 if it was present, else 0. |
| Cache.ResponseCache.ClearAllCache | backend/middleware/cache.js:77-80 | The cache is left empty. |
| Email.Backoff | backend/config/email.js:21-24 | The wait after failed attempt k is 2^(k-1) × 1000 ms. |
| Email.FirstSent | backend/config/email.js:8-12 | Finds the first successful attempt, all earlier ones failing; answers none exactly when every attempt fails. |
| Email.SendWithRetry | backend/config/email.js:7-26 | Returns the first success, after k + 1 attempts and the waits of k failures. Otherwise it throws the last attempt's error after `maxRetries` attempts, with no wait after the last one. No attempt is made when `maxRetries` < 1. |
| Email.DefaultWaits | backend/config/email.js:7-24 | With the default of 3 attempts, the waits are 1000 and 2000 ms only. |
| Email.BackoffDoubles | backend/config/email.js:21-24 | The first wait is 1000 ms and each wait doubles the previous one. |
| Email.SubjectsEndWithTail | backend/config/email.js:51 | Both subjects end with the id's last six characters, so ids that agree on those give equal subjects. |

## Left out

- The Order schema declares no `paymentInfo` and no `paymentStatus`, yet the handlers query `paymentInfo.cashfreeOrderId` and a top-level `paymentStatus`. Mongoose would drop undeclared fields. The model keeps both on an order's `paymentInfo`, as the handlers expect, and does not model field stripping.
- Regular expressions built from user input (search and the duplicate-name guard) are modelled as ASCII case-insensitive substring and equality tests. Metacharacters in the input are not interpreted.
- Floating point: prices, quantities and stock are integers and the review mean is a `real`. `Number()` of a non-numeric string (NaN) is not modelled; ratings are given as numbers.
- The sort is a stable insertion sort. The database's order among products with equal keys is not specified and is not modelled; ties keep catalogue order.
- The cache's entry lifetime (TTL and expiry checks) is not modelled: an entry stays until it is cleared. Logging is left out.
- The cache treats any stored body as a hit. A cached body that is falsy in JavaScript would miss in the source, but handlers only store JSON objects.
- Mail: the HTML bodies, locale formatting and the SendGrid client are left out. Each attempt's outcome is a given sequence and waiting is recorded, not performed.
- Email.SendWithRetry: requires at least `maxRetries` given outcomes, because the outcome sequence stands for the mail service.
- The socket broadcast after order changes, order population (`populate`) and the non-blocking mail calls after placement have no effect on the store and are left out.
- Cart persistence in localStorage (JSON) and React state holders are left out; the updaters are pure functions on the list.
- Authentication and the admin middleware: the requesting user and the admin flag are parameters.
- Concurrency: the handlers are modelled as sequential steps on one store, so races between requests are not captured.
- Fresh ids and clocks are parameters: the new order's id is its position, and the new product id is given.
- getMyOrders, getAllOrders, getProduct, updateProduct and deleteProduct are not part of this model.
- The payment controller, authentication, uploads and the remaining frontend pages are not part of this model.
- Store.HttpStatus: a failed schema validation is passed to the application's error handler, which is not part of this model. The model assumes that handler answers 500.
- Strings.Trim: only ASCII white space (space, tab, line feed, carriage return, form feed, vertical tab) is cut. JavaScript's `trim()` also cuts other Unicode white space and line terminators, such as U+00A0 and U+FEFF.
- OrderController.AdmitByDemand refuses an order whose summed demand exceeds a counter with a new error, `DemandExceedsStock`, sent with 400. The code as written has no such answer.
- The handler methods follow the code as written. The corrected stock update and validation order (`TakeStock`, `AdmitByDemand`, `AdmitChecked`) and the corrected name guard (`CreateProduct`) are proved as separate definitions.

## Findings

| source | as written | input that shows it | evidently intended | confidence | as-written member | corrected member |
|---|---|---|---|---|---|---|
| backend/controllers/orderController.js:54-86 | Each line item loads its own copy of its product and is checked against the original stock. Each copy then saves original stock minus its own quantity, so the last save wins. | Stock 3 of size M; two line items of 2 for that product and size. Both checks pass, 4 units are ordered, and the stock ends at 1. | Line items for the same counter add up: the order is refused unless the total fits, and the counter drops by the total. | not executed | OrderController.RepeatedLineUndercounts | OrderController.AdmitByDemandIff |
| backend/controllers/orderController.js:82-95 | The stock is saved before `Order.create` validates the order document. A schema failure is answered with an error, but the stock is already taken. | Stock 3, one line item of 2, phone "12345". The answer is a validation error and no order is stored, yet the stock is 1. | A refused order leaves the stock untouched. | not executed | OrderController.InvalidOrderStillTakesStock | OrderController.AdmitCheckedFailsCleanly |
| backend/controllers/productController.js:94-105 | The duplicate-name guard compares the name as sent, while the schema trims the name before storing it. | A stored product "Tee" and a new product named " Tee". The guard passes, and a second "Tee" is stored. | No two stored names are equal ignoring case. | not executed | ProductController.PaddedNameSlipsThrough | ProductController.CreateProductKeepsNamesDistinct |
