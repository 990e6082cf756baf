// The order document: its schema constraints, the status enum and its
// default, and the pre-save hook that stamps `updatedAt`
// (backend/models/Order.js).
module OrderModel {
  import opened Results
  import opened Strings
  import opened ProductModel

  datatype Status = Pending | Shipped | Delivered | Cancelled

  function StatusName(st: Status): string {
    match st
    case Pending => "Pending"
    case Shipped => "Shipped"
    case Delivered => "Delivered"
    case Cancelled => "Cancelled"
  }

  /** Membership in the status enum: the string is one of the four names. */
  function ParseStatus(s: string): (r: Option<Status>)
    ensures r.Some? ==> StatusName(r.value) == s
    ensures r.None? ==> forall st: Status :: StatusName(st) != s
  {
    if s == "Pending" then Some(Pending)
    else if s == "Shipped" then Some(Shipped)
    else if s == "Delivered" then Some(Delivered)
    else if s == "Cancelled" then Some(Cancelled)
    else None
  }

  lemma ParseStatusName(st: Status)
    ensures ParseStatus(StatusName(st)) == Some(st)
  {
  }

  datatype Address = Address(street: string, city: string, state: string, pincode: string)

  /** The address object may be missing from a request; an empty string stands for a missing field. */
  datatype CustomerInfo = CustomerInfo(name: string, phone: string, address: Option<Address>)

  /** One entry of `products`: a reference plus the name, price and image captured at order time. */
  datatype LineItem = LineItem(productId: ProductId, name: string, price: int, image: string, quantity: int, size: string)

  datatype PaymentInfo = PaymentInfo(cashfreeOrderId: string, paymentId: string, paymentStatus: string, paymentMethod: string)

  datatype Order = Order(
    customerId: UserId,
    customerInfo: CustomerInfo,
    products: seq<LineItem>,
    totalPrice: int,
    status: Status,
    paymentInfo: Option<PaymentInfo>,
    createdAt: int,
    updatedAt: int)

  predicate ValidPhone(phone: string) {
    DigitString(phone, 10)
  }

  predicate ValidPincode(pincode: string) {
    DigitString(pincode, 6)
  }

  predicate ValidAddress(a: Address) {
    a.street != [] && a.city != [] && a.state != [] && ValidPincode(a.pincode)
  }

  predicate ValidCustomerInfo(c: CustomerInfo) {
    c.name != [] && ValidPhone(c.phone) && c.address.Some? && ValidAddress(c.address.value)
  }

  predicate ValidLineItem(it: LineItem) {
    it.productId != [] && it.quantity >= 1 && ValidSize(it.size)
  }

  /** Everything the schema's validators demand of a stored order. */
  predicate ValidOrder(o: Order) {
    && o.customerId != []
    && ValidCustomerInfo(o.customerInfo)
    && (forall i :: 0 <= i < |o.products| ==> ValidLineItem(o.products[i]))
    && o.totalPrice >= 0
  }

  /** The document `Order.create` builds: status takes its default, both stamps are the creation time. */
  function NewOrder(customer: UserId, items: seq<LineItem>, info: CustomerInfo, total: int,
                    payment: Option<PaymentInfo>, now: int): (o: Order)
    ensures o.status == Pending
    ensures o.createdAt == now && o.updatedAt == now
    ensures o.customerId == customer && o.products == items && o.customerInfo == info
    ensures o.totalPrice == total && o.paymentInfo == payment
  {
    Order(customer, info, items, total, Pending, payment, now, now)
  }

  /** The pre-save hook: every save stamps `updatedAt` and touches nothing else. */
  function Touch(o: Order, now: int): (r: Order)
    ensures r.updatedAt == now
    ensures r.(updatedAt := o.updatedAt) == o
  {
    o.(updatedAt := now)
  }

  /** A status change never affects whether an order passes the schema. */
  lemma ValidityIgnoresStatus(o: Order, st: Status, now: int)
    ensures ValidOrder(Touch(o.(status := st), now)) <==> ValidOrder(o)
  {
  }

  /** The phone check accepts exactly the ten-digit strings: one more or one fewer digit fails. */
  lemma {:induction false} PhoneLengthMatters(phone: string)
    requires ValidPhone(phone)
    ensures !ValidPhone(phone + "0") && !ValidPhone(phone[1..])
    ensures !ValidPincode(phone)
  {
  }
}
