/** The tables of the marketplace and their column constraints
    (shared/schema.ts), plus the registration check.

    Money columns are decimal(10,2) and are held as whole cents; timestamps are
    integers (milliseconds); ids are the text of the `varchar` keys. */
module Schema {
  import opened Wrappers
  import Decimal

  type Id = string

  /** The `order_status` enum. */
  datatype OrderStatus = Placed | Procuring | OnTheWay | Delivered

  /** The enum label stored in the database and sent over the wire. */
  function StatusName(s: OrderStatus): string
  {
    match s
    case Placed => "PLACED"
    case Procuring => "PROCURING"
    case OnTheWay => "ON_THE_WAY"
    case Delivered => "DELIVERED"
  }

  /** Reading a label into the enum column; any other text is refused. */
  function ParseStatus(text: string): (r: Option<OrderStatus>)
    ensures r.Some? ==> StatusName(r.value) == text
  {
    if text == "PLACED" then Some(Placed)
    else if text == "PROCURING" then Some(Procuring)
    else if text == "ON_THE_WAY" then Some(OnTheWay)
    else if text == "DELIVERED" then Some(Delivered)
    else None
  }

  /** The enum has exactly the four labels, and each reads back as itself. */
  lemma ParseStatusExact(text: string, s: OrderStatus)
    ensures ParseStatus(text) == Some(s) <==> text == StatusName(s)
  {
  }

  /** An order row that does not name a status gets this one. */
  const DefaultStatus: OrderStatus := Placed

  /** A decimal(10,2) value: at most eight digits before the point. */
  predicate FitsMoney(cents: int)
  {
    -10_000_000_000 < cents < 10_000_000_000
  }

  /** A PostgreSQL `integer` value. */
  predicate FitsInt32(n: int)
  {
    -0x8000_0000 <= n < 0x8000_0000
  }

  datatype Product = Product(id: Id, name: string, unit: string, image: Option<string>)

  /** `orders`: status and total are nullable; `total` is decimal(10,2). */
  datatype Order = Order(id: Id, userId: Id, status: Option<OrderStatus>, total: Option<int>, createdAt: Option<int>)

  /** `order_items`: quantity is a non-null integer, price a nullable decimal(10,2). */
  datatype OrderItem = OrderItem(id: Id, orderId: Id, productId: Id, quantity: int, price: Option<int>)

  /** `procurement_prices`: price and date are both non-null. */
  datatype PriceObservation = PriceObservation(id: Id, productId: Id, price: int, date: int)

  /** `deliveries`: partner, time and payment are nullable. */
  datatype Delivery = Delivery(id: Id, orderId: Id, partnerId: Option<Id>, deliveredAt: Option<int>, paymentReceived: Option<int>)

  /** An order together with its line items, as the order queries return it. */
  datatype OrderWithItems = OrderWithItems(order: Order, items: seq<OrderItem>)

  /** The database: the user table is reduced to its keys. Row order is the
      order a full-table select returns. */
  datatype Db = Db(
    users: set<Id>,
    products: seq<Product>,
    orders: seq<Order>,
    items: seq<OrderItem>,
    prices: seq<PriceObservation>,
    deliveries: seq<Delivery>)

  /** Every stored value respects its column type. */
  ghost predicate ColumnsFit(db: Db)
  {
    && (forall i :: 0 <= i < |db.orders| && db.orders[i].total.Some? ==> FitsMoney(db.orders[i].total.value))
    && (forall i :: 0 <= i < |db.items| ==> FitsInt32(db.items[i].quantity))
    && (forall i :: 0 <= i < |db.items| && db.items[i].price.Some? ==> FitsMoney(db.items[i].price.value))
    && (forall i :: 0 <= i < |db.prices| ==> FitsMoney(db.prices[i].price))
    && (forall i :: 0 <= i < |db.deliveries| && db.deliveries[i].paymentReceived.Some? ==> FitsMoney(db.deliveries[i].paymentReceived.value))
  }

  /** Storing numeric text in a decimal(10,2) column: the value rounded to the
      cent, or a database error when the text is not a number or the rounded
      value needs more than eight integer digits. */
  function DecimalColumn(text: string): (r: Option<int>)
    ensures r.Some? <==> Decimal.ParseFloat(text).Finite? && FitsMoney(Decimal.RoundToCents(Decimal.ParseFloat(text)))
    ensures r.Some? ==> r.value == Decimal.RoundToCents(Decimal.ParseFloat(text))
  {
    match Decimal.ParseFloat(text)
    case NaN => None
    case Finite(m, s) =>
      var cents := Decimal.RoundToCents(Decimal.Finite(m, s));
      if FitsMoney(cents) then Some(cents) else None
  }

  /** What the server stores when it writes `x.toString()` into a
      decimal(10,2) column: the number itself rounded to the cent, or an error
      when it is not finite or too large. Printing and re-reading loses
      nothing that the column keeps. */
  lemma StoredNumberIsRounded(x: Decimal.Number)
    ensures DecimalColumn(Decimal.ToString(x)) ==
      if x.Finite? && FitsMoney(Decimal.RoundToCents(x)) then Some(Decimal.RoundToCents(x)) else None
  {
    Decimal.ParseToStringRoundTrip(x);
    if x.Finite? {
      Decimal.RoundToCentsNormalize(x);
    }
  }

  datatype Role = Vendor | Partner

  datatype RegisterRequest = RegisterRequest(
    email: string, password: string, name: string, role: Role,
    stallInfo: Option<string>, confirmPassword: string)

  /** `registerSchema`: the user columns' length limits (varchar(255) email and
      password), a non-empty confirmation, and the two passwords equal. */
  function RegistrationAccepted(r: RegisterRequest): (ok: bool)
    ensures ok ==> r.password == r.confirmPassword && |r.password| >= 1
    ensures r.password != r.confirmPassword ==> !ok
  {
    && |r.email| <= 255
    && |r.password| <= 255
    && |r.confirmPassword| >= 1
    && r.password == r.confirmPassword
  }
}
