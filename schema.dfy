/** The relational schema of the application (`product`, `customer`,
    `stock_in`, `sale_order`, `sale_order_item`, `maintenance`,
    `admin_user`) as one value, and every SQL statement the handlers issue
    as a function from that value to the next one.

    Each table is a sequence whose row `i` carries the auto-increment id
    `i + 1`: rows are only ever appended, never deleted. */
module Schema {
  import opened Common
  import Text

  datatype Product = Product(
    id: int, category: Option<string>, model: string,
    price: Option<real>, costPrice: Option<real>, quantity: int)

  datatype Customer = Customer(
    id: int, name: string, phone: Option<string>, address: Option<string>, note: Option<string>)

  datatype StockIn = StockIn(
    id: int, productId: int, quantity: int, costPrice: real, note: Option<string>)

  datatype SaleOrder = SaleOrder(id: int, orderNo: string, customerId: int, totalAmount: real)

  datatype SaleOrderItem = SaleOrderItem(
    id: int, orderId: int, productId: int, quantity: int, unitPrice: real)

  datatype Maintenance = Maintenance(
    id: int, customerId: int, productId: Option<int>, content: Option<string>, result: Option<string>)

  datatype AdminRow = AdminRow(id: int, username: string, passwordHash: string, displayName: Option<string>)

  datatype Tables = Tables(
    products: seq<Product>,
    customers: seq<Customer>,
    stockIns: seq<StockIn>,
    orders: seq<SaleOrder>,
    items: seq<SaleOrderItem>,
    maintenance: seq<Maintenance>,
    admins: seq<AdminRow>)

  const Empty := Tables([], [], [], [], [], [], [])

  /** A MySQL error as the driver raises it: a UNIQUE key that already
      holds the value, or a FOREIGN KEY whose referenced row is missing. */
  datatype DbError =
    | DuplicateEntry(value: string, key: string)
    | ForeignKeyFails(table: string, column: string)

  /** The server's error number. */
  function Code(e: DbError): int {
    match e
    case DuplicateEntry(_, _) => 1062
    case ForeignKeyFails(_, _) => 1452
  }

  /** The text the error converts to with `str(e)`. */
  function Message(e: DbError): string {
    match e
    case DuplicateEntry(value, key) => "Duplicate entry '" + value + "' for key '" + key + "'"
    case ForeignKeyFails(table, column) =>
      "Cannot add or update a child row: a foreign key constraint fails (`" + table + "`, FOREIGN KEY (`" + column + "`))"
  }

  // ---------------------------------------------------------------------
  // Integrity: auto-increment ids, UNIQUE keys, FOREIGN KEYs

  predicate ProductsOk(products: seq<Product>) {
    && (forall i :: 0 <= i < |products| ==> products[i].id == i + 1)
    && (forall i, j :: 0 <= i < j < |products| ==> products[i].model != products[j].model)
  }

  predicate CustomersOk(customers: seq<Customer>) {
    forall i :: 0 <= i < |customers| ==> customers[i].id == i + 1
  }

  predicate StockInsOk(rows: seq<StockIn>, productCount: int) {
    forall i :: 0 <= i < |rows| ==> rows[i].id == i + 1 && 1 <= rows[i].productId <= productCount
  }

  predicate OrdersOk(rows: seq<SaleOrder>, customerCount: int) {
    forall i :: 0 <= i < |rows| ==> rows[i].id == i + 1 && 1 <= rows[i].customerId <= customerCount
  }

  predicate ItemsOk(rows: seq<SaleOrderItem>, orderCount: int, productCount: int) {
    forall i :: 0 <= i < |rows| ==>
      && rows[i].id == i + 1
      && 1 <= rows[i].orderId <= orderCount
      && 1 <= rows[i].productId <= productCount
  }

  predicate MaintenanceOk(rows: seq<Maintenance>, customerCount: int, productCount: int) {
    forall i :: 0 <= i < |rows| ==>
      && rows[i].id == i + 1
      && 1 <= rows[i].customerId <= customerCount
      && (rows[i].productId.Some? ==> 1 <= rows[i].productId.value <= productCount)
  }

  predicate AdminsOk(rows: seq<AdminRow>) {
    && (forall i :: 0 <= i < |rows| ==> rows[i].id == i + 1)
    && (forall i, j :: 0 <= i < j < |rows| ==> rows[i].username != rows[j].username)
  }

  /** Every key and reference the schema declares holds. */
  predicate WellFormed(t: Tables) {
    && ProductsOk(t.products)
    && CustomersOk(t.customers)
    && StockInsOk(t.stockIns, |t.products|)
    && OrdersOk(t.orders, |t.customers|)
    && ItemsOk(t.items, |t.orders|, |t.products|)
    && MaintenanceOk(t.maintenance, |t.customers|, |t.products|)
    && AdminsOk(t.admins)
  }

  // ---------------------------------------------------------------------
  // The ledgers and the on-hand quantity

  /** Total quantity received for product `pid` in the `stock_in` rows. */
  function Received(rows: seq<StockIn>, pid: int): int {
    if rows == [] then 0
    else Received(rows[..|rows| - 1], pid) + (if rows[|rows| - 1].productId == pid then rows[|rows| - 1].quantity else 0)
  }

  /** Total quantity sold of product `pid` in the `sale_order_item` rows. */
  function Sold(rows: seq<SaleOrderItem>, pid: int): int {
    if rows == [] then 0
    else Sold(rows[..|rows| - 1], pid) + (if rows[|rows| - 1].productId == pid then rows[|rows| - 1].quantity else 0)
  }

  lemma ReceivedAppend(rows: seq<StockIn>, r: StockIn, pid: int)
    ensures Received(rows + [r], pid) == Received(rows, pid) + (if r.productId == pid then r.quantity else 0)
  {
    assert (rows + [r])[..|rows|] == rows;
  }

  lemma SoldAppend(rows: seq<SaleOrderItem>, r: SaleOrderItem, pid: int)
    ensures Sold(rows + [r], pid) == Sold(rows, pid) + (if r.productId == pid then r.quantity else 0)
  {
    assert (rows + [r])[..|rows|] == rows;
  }

  /** A product no `stock_in` row mentions has received nothing. */
  lemma {:induction false} ReceivedNone(rows: seq<StockIn>, pid: int)
    requires forall i :: 0 <= i < |rows| ==> rows[i].productId != pid
    ensures Received(rows, pid) == 0
  {
    if rows != [] {
      ReceivedNone(rows[..|rows| - 1], pid);
    }
  }

  /** A product no `sale_order_item` row mentions has sold nothing. */
  lemma {:induction false} SoldNone(rows: seq<SaleOrderItem>, pid: int)
    requires forall i :: 0 <= i < |rows| ==> rows[i].productId != pid
    ensures Sold(rows, pid) == 0
  {
    if rows != [] {
      SoldNone(rows[..|rows| - 1], pid);
    }
  }

  /** The inventory invariant: every product's on-hand quantity is what its
      `stock_in` rows received minus what its `sale_order_item` rows sold,
      and it is never negative. */
  predicate Consistent(t: Tables) {
    forall i :: 0 <= i < |t.products| ==>
      && t.products[i].quantity == Received(t.stockIns, i + 1) - Sold(t.items, i + 1)
      && t.products[i].quantity >= 0
  }

  // ---------------------------------------------------------------------
  // Statements

  /** `SELECT ... FROM product WHERE id = %s`. */
  function ProductById(t: Tables, id: int): (r: Option<Product>)
    ensures r.Some? <==> 1 <= id <= |t.products|
    ensures ProductsOk(t.products) && r.Some? ==> r.value.id == id && r.value in t.products
  {
    if 1 <= id <= |t.products| then Some(t.products[id - 1]) else None
  }

  /** On-hand quantity of a product, 0 for a missing one. */
  function Quantity(t: Tables, id: int): int {
    if 1 <= id <= |t.products| then t.products[id - 1].quantity else 0
  }

  /** `INSERT INTO product (category, model, price, cost_price, quantity)
      VALUES (..., 0)`; the UNIQUE key `uk_model` rejects a repeated model. */
  function InsertProduct(t: Tables, category: Option<string>, model: string, price: real, costPrice: real)
    : (r: (Tables, Result<int, DbError>))
    ensures WellFormed(t) ==> WellFormed(r.0)
    ensures r.1.Failure? <==> exists i :: 0 <= i < |t.products| && t.products[i].model == model
    ensures r.1.Failure? ==> r.0 == t && r.1.error == DuplicateEntry(model, "product.uk_model")
    ensures r.1.Success? ==>
      && r.1.value == |t.products| + 1
      && r.0 == t.(products := t.products + [Product(r.1.value, category, model, Some(price), Some(costPrice), 0)])
  {
    if exists i :: 0 <= i < |t.products| && t.products[i].model == model then
      (t, Failure(DuplicateEntry(model, "product.uk_model")))
    else
      var id := |t.products| + 1;
      (t.(products := t.products + [Product(id, category, model, Some(price), Some(costPrice), 0)]), Success(id))
  }

  /** `INSERT INTO customer (name, phone, address, note) VALUES (...)`;
      returns the new row's id. */
  function InsertCustomer(t: Tables, name: string, phone: Option<string>, address: Option<string>, note: Option<string>)
    : (r: (Tables, int))
    ensures WellFormed(t) ==> WellFormed(r.0)
    ensures r.1 == |t.customers| + 1
    ensures r.0 == t.(customers := t.customers + [Customer(r.1, name, phone, address, note)])
  {
    var id := |t.customers| + 1;
    (t.(customers := t.customers + [Customer(id, name, phone, address, note)]), id)
  }

  /** `INSERT INTO stock_in (product_id, quantity, cost_price, note) VALUES
      (...)`; the FOREIGN KEY on `product_id` rejects an unknown product. */
  function InsertStockIn(t: Tables, productId: int, quantity: int, costPrice: real, note: Option<string>)
    : (r: (Tables, Result<int, DbError>))
    ensures WellFormed(t) ==> WellFormed(r.0)
    ensures r.1.Failure? <==> ProductById(t, productId).None?
    ensures r.1.Failure? ==> r.0 == t
    ensures r.1.Success? ==>
      && r.1.value == |t.stockIns| + 1
      && r.0 == t.(stockIns := t.stockIns + [StockIn(r.1.value, productId, quantity, costPrice, note)])
  {
    if ProductById(t, productId).None? then
      (t, Failure(ForeignKeyFails("stock_in", "product_id")))
    else
      var id := |t.stockIns| + 1;
      (t.(stockIns := t.stockIns + [StockIn(id, productId, quantity, costPrice, note)]), Success(id))
  }

  /** `UPDATE product SET quantity = quantity + %s WHERE id = %s` (the sale
      handlers write `quantity - %s`, that is a negative `delta`). A missing
      id matches no row and changes nothing. */
  function AdjustQuantity(t: Tables, productId: int, delta: int): (r: Tables)
    ensures WellFormed(t) ==> WellFormed(r)
    ensures |r.products| == |t.products|
    ensures r == t.(products := r.products)
    ensures forall i :: 0 <= i < |t.products| ==>
      r.products[i] == if i + 1 == productId then t.products[i].(quantity := t.products[i].quantity + delta)
                       else t.products[i]
  {
    if 1 <= productId <= |t.products| then
      var p := t.products[productId - 1];
      t.(products := t.products[productId - 1 := p.(quantity := p.quantity + delta)])
    else t
  }

  /** `INSERT INTO sale_order (order_no, customer_id, total_amount) VALUES
      (...)`; the FOREIGN KEY on `customer_id` rejects an unknown customer. */
  function InsertSaleOrder(t: Tables, orderNo: string, customerId: int, total: real)
    : (r: (Tables, Result<int, DbError>))
    ensures WellFormed(t) ==> WellFormed(r.0)
    ensures r.1.Failure? <==> !(1 <= customerId <= |t.customers|)
    ensures r.1.Failure? ==> r.0 == t
    ensures r.1.Success? ==>
      && r.1.value == |t.orders| + 1
      && r.0 == t.(orders := t.orders + [SaleOrder(r.1.value, orderNo, customerId, total)])
  {
    if !(1 <= customerId <= |t.customers|) then
      (t, Failure(ForeignKeyFails("sale_order", "customer_id")))
    else
      var id := |t.orders| + 1;
      (t.(orders := t.orders + [SaleOrder(id, orderNo, customerId, total)]), Success(id))
  }

  /** `INSERT INTO sale_order_item (order_id, product_id, quantity,
      unit_price) VALUES (...)`; both references are FOREIGN KEYs. */
  function InsertSaleItem(t: Tables, orderId: int, productId: int, quantity: int, unitPrice: real)
    : (r: (Tables, Result<int, DbError>))
    ensures WellFormed(t) ==> WellFormed(r.0)
    ensures r.1.Failure? <==> !(1 <= orderId <= |t.orders|) || ProductById(t, productId).None?
    ensures r.1.Failure? ==> r.0 == t
    ensures r.1.Success? ==>
      && r.1.value == |t.items| + 1
      && r.0 == t.(items := t.items + [SaleOrderItem(r.1.value, orderId, productId, quantity, unitPrice)])
  {
    if !(1 <= orderId <= |t.orders|) then
      (t, Failure(ForeignKeyFails("sale_order_item", "order_id")))
    else if ProductById(t, productId).None? then
      (t, Failure(ForeignKeyFails("sale_order_item", "product_id")))
    else
      var id := |t.items| + 1;
      (t.(items := t.items + [SaleOrderItem(id, orderId, productId, quantity, unitPrice)]), Success(id))
  }

  /** `INSERT INTO maintenance (customer_id, product_id, content, result)
      VALUES (...)`; `product_id` may be NULL, otherwise it must exist. */
  function InsertMaintenance(t: Tables, customerId: int, productId: Option<int>, content: Option<string>, result: Option<string>)
    : (r: (Tables, Result<int, DbError>))
    ensures WellFormed(t) ==> WellFormed(r.0)
    ensures r.1.Failure? <==>
      !(1 <= customerId <= |t.customers|) || (productId.Some? && ProductById(t, productId.value).None?)
    ensures r.1.Failure? ==> r.0 == t
    ensures r.1.Success? ==>
      && r.1.value == |t.maintenance| + 1
      && r.0 == t.(maintenance := t.maintenance + [Maintenance(r.1.value, customerId, productId, content, result)])
  {
    if !(1 <= customerId <= |t.customers|) then
      (t, Failure(ForeignKeyFails("maintenance", "customer_id")))
    else if productId.Some? && ProductById(t, productId.value).None? then
      (t, Failure(ForeignKeyFails("maintenance", "product_id")))
    else
      var id := |t.maintenance| + 1;
      (t.(maintenance := t.maintenance + [Maintenance(id, customerId, productId, content, result)]), Success(id))
  }

  /** The first `admin_user` row with this username, as `fetchone()` returns it. */
  function FindAdmin(rows: seq<AdminRow>, username: string): (r: Option<AdminRow>)
    ensures r.None? <==> forall i :: 0 <= i < |rows| ==> rows[i].username != username
    ensures r.Some? ==> r.value in rows && r.value.username == username
  {
    if rows == [] then None
    else if rows[0].username == username then Some(rows[0])
    else FindAdmin(rows[1..], username)
  }

  /** `SELECT ... FROM admin_user WHERE username = %s`. */
  function AdminByUsername(t: Tables, username: string): Option<AdminRow> {
    FindAdmin(t.admins, username)
  }

  /** `SELECT ... FROM admin_user WHERE id = %s`. */
  function AdminById(t: Tables, id: int): (r: Option<AdminRow>)
    ensures AdminsOk(t.admins) && r.Some? ==> r.value.id == id && r.value in t.admins
    ensures AdminsOk(t.admins) ==> (r.None? <==> forall i :: 0 <= i < |t.admins| ==> t.admins[i].id != id)
  {
    if 1 <= id <= |t.admins| then Some(t.admins[id - 1]) else None
  }

  /** `INSERT INTO admin_user (username, password_hash, display_name) VALUES
      (...)`; `username` is a UNIQUE key. */
  function InsertAdmin(t: Tables, username: string, passwordHash: string, displayName: string)
    : (r: (Tables, Result<int, DbError>))
    ensures WellFormed(t) ==> WellFormed(r.0)
    ensures r.1.Failure? <==> AdminByUsername(t, username).Some?
    ensures r.1.Failure? ==> r.0 == t
    ensures r.1.Success? ==>
      && r.1.value == |t.admins| + 1
      && r.0 == t.(admins := t.admins + [AdminRow(r.1.value, username, passwordHash, Some(displayName))])
  {
    if AdminByUsername(t, username).Some? then
      (t, Failure(DuplicateEntry(username, "admin_user.username")))
    else
      var id := |t.admins| + 1;
      (t.(admins := t.admins + [AdminRow(id, username, passwordHash, Some(displayName))]), Success(id))
  }
}
