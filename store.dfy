// The document store the controllers work on: the product collection and
// the order collection, with the error responses the handlers return.
module Store {
  import opened ProductModel
  import opened OrderModel

  /** The error responses of the order and product handlers. */
  datatype Failure =
    | NoProducts
    | IncompleteCustomerInfo
    | PaymentVerificationRequired
    | ProductNotFound(productId: ProductId)
    | InsufficientStock(productId: ProductId, size: string, available: int, requested: int)
    | OrderNotFound
    | NotAuthorized
    | AlreadyShipped
    | AlreadyCancelled
    | InvalidStatus
    | NotDelivered
    | AlreadyReviewed
    | NotPurchased
    | DuplicateName
    | ValidationFailed
    | DemandExceedsStock

  /**
   * The HTTP status each error is sent with. A failed schema validation is
   * passed to the application's error handler, which is not modelled; its
   * answer is taken to be 500.
   */
  function HttpStatus(f: Failure): int {
    match f
    case ProductNotFound(_) => 404
    case OrderNotFound => 404
    case NotAuthorized => 403
    case NotPurchased => 403
    case ValidationFailed => 500
    case _ => 400
  }

  /** Every stored document passes its schema: the store never persists an invalid one. */
  predicate ValidState(products: map<ProductId, Product>, orders: seq<Order>) {
    && (forall pid :: pid in products ==> ValidProduct(products[pid]))
    && (forall i :: 0 <= i < |orders| ==> ValidOrder(orders[i]))
  }

  class Database {
    var products: map<ProductId, Product>
    var orders: seq<Order>

    ghost predicate Valid()
      reads this
    {
      ValidState(products, orders)
    }

    constructor ()
      ensures Valid()
      ensures products == map[] && orders == []
    {
      products := map[];
      orders := [];
    }
  }
}
