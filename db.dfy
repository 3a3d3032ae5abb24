/** The database connection layer: a `Database` object whose fields are the
    tables, with one method per SQL statement. Every statement runs on its
    own connection and commits on its own, so a handler that issues two
    statements is two separate state changes, not one transaction. */
module Db {
  import opened Common
  import opened Schema

  class Database {
    var products: seq<Product>
    var customers: seq<Customer>
    var stockIns: seq<StockIn>
    var orders: seq<SaleOrder>
    var items: seq<SaleOrderItem>
    var maintenance: seq<Maintenance>
    var admins: seq<AdminRow>

    /** The contents of all tables. */
    function Snapshot(): Tables
      reads this
    {
      Tables(products, customers, stockIns, orders, items, maintenance, admins)
    }

    predicate Valid()
      reads this
    {
      WellFormed(Snapshot())
    }

    /** A freshly created schema: every table empty. */
    constructor ()
      ensures Snapshot() == Empty && Valid()
    {
      products, customers, stockIns, orders, items, maintenance, admins := [], [], [], [], [], [], [];
    }

    method SelectProduct(id: int) returns (r: Option<Product>)
      ensures r == ProductById(Snapshot(), id)
    {
      r := if 1 <= id <= |products| then Some(products[id - 1]) else None;
    }

    method SelectAdminByUsername(username: string) returns (r: Option<AdminRow>)
      ensures r == AdminByUsername(Snapshot(), username)
    {
      r := FindAdmin(admins, username);
    }

    method InsertProduct(category: Option<string>, model: string, price: real, costPrice: real)
      returns (r: Result<int, DbError>)
      modifies this
      ensures (Snapshot(), r) == Schema.InsertProduct(old(Snapshot()), category, model, price, costPrice)
    {
      if exists i :: 0 <= i < |products| && products[i].model == model {
        r := Failure(DuplicateEntry(model, "product.uk_model"));
      } else {
        products := products + [Product(|products| + 1, category, model, Some(price), Some(costPrice), 0)];
        r := Success(|products|);
      }
    }

    method InsertCustomer(name: string, phone: Option<string>, address: Option<string>, note: Option<string>)
      returns (id: int)
      modifies this
      ensures (Snapshot(), id) == Schema.InsertCustomer(old(Snapshot()), name, phone, address, note)
    {
      customers := customers + [Customer(|customers| + 1, name, phone, address, note)];
      id := |customers|;
    }

    method InsertStockIn(productId: int, quantity: int, costPrice: real, note: Option<string>)
      returns (r: Result<int, DbError>)
      modifies this
      ensures (Snapshot(), r) == Schema.InsertStockIn(old(Snapshot()), productId, quantity, costPrice, note)
    {
      if 1 <= productId <= |products| {
        stockIns := stockIns + [StockIn(|stockIns| + 1, productId, quantity, costPrice, note)];
        r := Success(|stockIns|);
      } else {
        r := Failure(ForeignKeyFails("stock_in", "product_id"));
      }
    }

    method AdjustQuantity(productId: int, delta: int)
      modifies this
      ensures Snapshot() == Schema.AdjustQuantity(old(Snapshot()), productId, delta)
    {
      if 1 <= productId <= |products| {
        var p := products[productId - 1];
        products := products[productId - 1 := p.(quantity := p.quantity + delta)];
      }
    }

    method InsertSaleOrder(orderNo: string, customerId: int, total: real) returns (r: Result<int, DbError>)
      modifies this
      ensures (Snapshot(), r) == Schema.InsertSaleOrder(old(Snapshot()), orderNo, customerId, total)
    {
      if 1 <= customerId <= |customers| {
        orders := orders + [SaleOrder(|orders| + 1, orderNo, customerId, total)];
        r := Success(|orders|);
      } else {
        r := Failure(ForeignKeyFails("sale_order", "customer_id"));
      }
    }

    method InsertSaleItem(orderId: int, productId: int, quantity: int, unitPrice: real)
      returns (r: Result<int, DbError>)
      modifies this
      ensures (Snapshot(), r) == Schema.InsertSaleItem(old(Snapshot()), orderId, productId, quantity, unitPrice)
    {
      if !(1 <= orderId <= |orders|) {
        r := Failure(ForeignKeyFails("sale_order_item", "order_id"));
      } else if !(1 <= productId <= |products|) {
        r := Failure(ForeignKeyFails("sale_order_item", "product_id"));
      } else {
        items := items + [SaleOrderItem(|items| + 1, orderId, productId, quantity, unitPrice)];
        r := Success(|items|);
      }
    }

    method InsertMaintenance(customerId: int, productId: Option<int>, content: Option<string>, result: Option<string>)
      returns (r: Result<int, DbError>)
      modifies this
      ensures (Snapshot(), r) == Schema.InsertMaintenance(old(Snapshot()), customerId, productId, content, result)
    {
      if !(1 <= customerId <= |customers|) {
        r := Failure(ForeignKeyFails("maintenance", "customer_id"));
      } else if productId.Some? && !(1 <= productId.value <= |products|) {
        r := Failure(ForeignKeyFails("maintenance", "product_id"));
      } else {
        maintenance := maintenance + [Maintenance(|maintenance| + 1, customerId, productId, content, result)];
        r := Success(|maintenance|);
      }
    }

    method InsertAdmin(username: string, passwordHash: string, displayName: string)
      returns (r: Result<int, DbError>)
      modifies this
      ensures (Snapshot(), r) == Schema.InsertAdmin(old(Snapshot()), username, passwordHash, displayName)
    {
      if FindAdmin(admins, username).Some? {
        r := Failure(DuplicateEntry(username, "admin_user.username"));
      } else {
        admins := admins + [AdminRow(|admins| + 1, username, passwordHash, Some(displayName))];
        r := Success(|admins|);
      }
    }
  }
}
