/** The inventory and sales ledger: the statement sequences both front-ends
    issue for receiving stock, selling and adding a product, what each
    reports back, and the order-number format. The sequences are defined
    here once, as functions on the tables; each front-end issues the same
    statements through its own handler. */
module Ledger {
  import opened Common
  import opened Schema
  import Text
  import Db

  /** What a handler reports to the user after one request. */
  datatype Reply =
    | Invalid                    // a required field is missing or out of range; nothing was written
    | OutOfStock                 // the product is missing or has fewer units than requested
    | ModelExists                // the model is already in the catalog
    | AddFailed(error: DbError)  // some other failure while adding a product
    | Created(id: int)           // one row was added; its new id
    | SoldAs(orderNo: string)    // a sale was recorded under this order number
    | Crashed(error: DbError)    // a database error the handler does not catch

  // ---------------------------------------------------------------------
  // Receiving stock

  /** Insert one `stock_in` row, then raise the product's quantity by the
      same amount: two statements, each committed on its own. */
  function ReceiveStock(t: Tables, productId: int, quantity: int, costPrice: real, note: Option<string>)
    : (r: (Tables, Reply))
    ensures WellFormed(t) ==> WellFormed(r.0)
    ensures r.1.Crashed? <==> ProductById(t, productId).None?
    ensures r.1.Crashed? || r.1.Created?
    ensures r.1.Crashed? ==> r.0 == t
    ensures r.1.Created? ==>
      && r.1.id == |t.stockIns| + 1
      && r.0.stockIns == t.stockIns + [StockIn(r.1.id, productId, quantity, costPrice, note)]
      && |r.0.products| == |t.products|
      && Quantity(r.0, productId) == Quantity(t, productId) + quantity
      && (forall i :: 0 <= i < |t.products| && i + 1 != productId ==> r.0.products[i] == t.products[i])
      && r.0.products[productId - 1] == t.products[productId - 1].(quantity := Quantity(r.0, productId))
      && r.0 == t.(products := r.0.products, stockIns := r.0.stockIns)
  {
    var (t1, ins) := InsertStockIn(t, productId, quantity, costPrice, note);
    if ins.Failure? then (t1, Crashed(ins.error))
    else (AdjustQuantity(t1, productId, quantity), Created(ins.value))
  }

  /** The statements of a receipt, issued one by one on the database. */
  method Receive(db: Db.Database, productId: int, quantity: int, costPrice: real, note: Option<string>)
    returns (reply: Reply)
    requires db.Valid()
    modifies db
    ensures db.Valid()
    ensures (db.Snapshot(), reply) == ReceiveStock(old(db.Snapshot()), productId, quantity, costPrice, note)
  {
    var inserted := db.InsertStockIn(productId, quantity, costPrice, note);
    if inserted.Failure? {
      return Crashed(inserted.error);
    }
    db.AdjustQuantity(productId, quantity);
    reply := Created(inserted.value);
  }

  /** Receiving a non-negative quantity keeps every product's quantity equal
      to received minus sold, and non-negative. */
  lemma ReceiveStockKeepsConsistent(t: Tables, productId: int, quantity: int, costPrice: real, note: Option<string>)
    requires WellFormed(t) && Consistent(t) && quantity >= 0
    ensures WellFormed(ReceiveStock(t, productId, quantity, costPrice, note).0)
    ensures Consistent(ReceiveStock(t, productId, quantity, costPrice, note).0)
  {
    var (t1, ins) := InsertStockIn(t, productId, quantity, costPrice, note);
    if ins.Success? {
      var row := StockIn(ins.value, productId, quantity, costPrice, note);
      var t2 := AdjustQuantity(t1, productId, quantity);
      forall i | 0 <= i < |t2.products|
        ensures t2.products[i].quantity == Received(t2.stockIns, i + 1) - Sold(t2.items, i + 1)
        ensures t2.products[i].quantity >= 0
      {
        ReceivedAppend(t.stockIns, row, i + 1);
      }
    }
  }

  /** The two statements are not one unit: between the `stock_in` insert
      and the quantity update the tables break the inventory invariant. */
  lemma ReceiveStockMidwayInconsistent(t: Tables, productId: int, quantity: int, costPrice: real, note: Option<string>)
    requires WellFormed(t) && Consistent(t) && quantity >= 1 && ProductById(t, productId).Some?
    ensures !Consistent(InsertStockIn(t, productId, quantity, costPrice, note).0)
  {
    var t1 := InsertStockIn(t, productId, quantity, costPrice, note).0;
    ReceivedAppend(t.stockIns, StockIn(|t.stockIns| + 1, productId, quantity, costPrice, note), productId);
    assert t1.products[productId - 1].quantity != Received(t1.stockIns, productId) - Sold(t1.items, productId);
  }

  // ---------------------------------------------------------------------
  // Selling

  /** Read the product; reject when it is missing or short of stock;
      otherwise insert the order header with total `quantity * unitPrice`,
      then one item pointing at that header, then lower the quantity. */
  function PlaceSale(t: Tables, customerId: int, productId: int, quantity: int, unitPrice: real, orderNo: string)
    : (r: (Tables, Reply))
    ensures WellFormed(t) ==> WellFormed(r.0)
    ensures r.1.OutOfStock? <==> ProductById(t, productId).None? || Quantity(t, productId) < quantity
    ensures r.1.OutOfStock? || r.1.Crashed? || r.1 == SoldAs(orderNo)
    ensures !r.1.SoldAs? ==> r.0 == t
    ensures r.1.Crashed? <==> !r.1.OutOfStock? && !(1 <= customerId <= |t.customers|)
    ensures r.1.SoldAs? ==>
      && r.0.orders == t.orders + [SaleOrder(|t.orders| + 1, orderNo, customerId, quantity as real * unitPrice)]
      && r.0.items == t.items + [SaleOrderItem(|t.items| + 1, |t.orders| + 1, productId, quantity, unitPrice)]
      && |r.0.products| == |t.products|
      && Quantity(r.0, productId) == Quantity(t, productId) - quantity >= 0
      && (forall i :: 0 <= i < |t.products| && i + 1 != productId ==> r.0.products[i] == t.products[i])
      && r.0.products[productId - 1] == t.products[productId - 1].(quantity := Quantity(r.0, productId))
      && r.0 == t.(products := r.0.products, orders := r.0.orders, items := r.0.items)
  {
    var product := ProductById(t, productId);
    if product.None? || product.value.quantity < quantity then (t, OutOfStock)
    else
      var total := quantity as real * unitPrice;
      var (t1, header) := InsertSaleOrder(t, orderNo, customerId, total);
      if header.Failure? then (t1, Crashed(header.error))
      else
        var (t2, item) := InsertSaleItem(t1, header.value, productId, quantity, unitPrice);
        match item
        case Failure(e) => (t2, Crashed(e))
        case Success(_) => (AdjustQuantity(t2, productId, -quantity), SoldAs(orderNo))
  }

  /** The statements of a sale, issued one by one on the database: the stock
      check, the header, the item, the decrement. */
  method Sell(db: Db.Database, customerId: int, productId: int, quantity: int, unitPrice: real, orderNo: string)
    returns (reply: Reply)
    requires db.Valid()
    modifies db
    ensures db.Valid()
    ensures (db.Snapshot(), reply) == PlaceSale(old(db.Snapshot()), customerId, productId, quantity, unitPrice, orderNo)
  {
    var product := db.SelectProduct(productId);
    if product.None? || product.value.quantity < quantity {
      return OutOfStock;
    }
    var total := quantity as real * unitPrice;
    var header := db.InsertSaleOrder(orderNo, customerId, total);
    if header.Failure? {
      return Crashed(header.error);
    }
    var item := db.InsertSaleItem(header.value, productId, quantity, unitPrice);
    match item
    case Failure(e) =>
      return Crashed(e);
    case Success(_) =>
    db.AdjustQuantity(productId, -quantity);
    reply := SoldAs(orderNo);
  }

  /** A sale keeps every product's quantity equal to received minus sold,
      and non-negative. */
  lemma PlaceSaleKeepsConsistent(t: Tables, customerId: int, productId: int, quantity: int, unitPrice: real, orderNo: string)
    requires WellFormed(t) && Consistent(t)
    ensures WellFormed(PlaceSale(t, customerId, productId, quantity, unitPrice, orderNo).0)
    ensures Consistent(PlaceSale(t, customerId, productId, quantity, unitPrice, orderNo).0)
  {
    var r := PlaceSale(t, customerId, productId, quantity, unitPrice, orderNo);
    if r.1.SoldAs? {
      var item := SaleOrderItem(|t.items| + 1, |t.orders| + 1, productId, quantity, unitPrice);
      var t1 := InsertSaleOrder(t, orderNo, customerId, quantity as real * unitPrice).0;
      var t2 := InsertSaleItem(t1, |t.orders| + 1, productId, quantity, unitPrice).0;
      assert WellFormed(t2);
      assert r.0 == AdjustQuantity(t2, productId, -quantity);
      forall i | 0 <= i < |r.0.products|
        ensures r.0.products[i].quantity == Received(r.0.stockIns, i + 1) - Sold(r.0.items, i + 1)
        ensures r.0.products[i].quantity >= 0
      {
        SoldAppend(t.items, item, i + 1);
      }
    }
  }

  // ---------------------------------------------------------------------
  // Adding a product

  /** The handlers' reading of a failed product insert: a message that
      mentions "Duplicate" or "uk_model" means the model is taken. */
  function ClassifyInsertError(e: DbError): (r: Reply)
    ensures r == ModelExists || r == AddFailed(e)
  {
    if Text.Contains(Message(e), "Duplicate") || Text.Contains(Message(e), "uk_model") then ModelExists
    else AddFailed(e)
  }

  /** The error the UNIQUE key raises on a repeated model is read as
      "model already exists". */
  lemma DuplicateModelIsRecognised(model: string)
    ensures ClassifyInsertError(DuplicateEntry(model, "product.uk_model")) == ModelExists
  {
    var m := Message(DuplicateEntry(model, "product.uk_model"));
    assert "Duplicate" <= m[0..];
  }

  /** Any other message is reported as a plain failure. */
  lemma OtherErrorIsGeneric(e: DbError)
    requires !Text.Contains(Message(e), "Duplicate") && !Text.Contains(Message(e), "uk_model")
    ensures ClassifyInsertError(e) == AddFailed(e)
  {
  }

  /** Insert a product with quantity 0 and report the outcome. */
  function AddProduct(t: Tables, category: Option<string>, model: string, price: real, costPrice: real)
    : (r: (Tables, Reply))
    ensures WellFormed(t) ==> WellFormed(r.0)
    ensures r.1.Created? <==> forall i :: 0 <= i < |t.products| ==> t.products[i].model != model
    ensures !r.1.Created? ==> r.0 == t && r.1 == ModelExists
    ensures r.1.Created? ==>
      && r.1.id == |t.products| + 1
      && r.0 == t.(products := t.products + [Product(r.1.id, category, model, Some(price), Some(costPrice), 0)])
  {
    var (t1, ins) := InsertProduct(t, category, model, price, costPrice);
    if ins.Success? then (t1, Created(ins.value))
    else
      DuplicateModelIsRecognised(model);
      (t1, ClassifyInsertError(ins.error))
  }

  /** A new product starts at quantity 0 with nothing received or sold, so
      the invariant extends to it. */
  lemma AddProductKeepsConsistent(t: Tables, category: Option<string>, model: string, price: real, costPrice: real)
    requires WellFormed(t) && Consistent(t)
    ensures WellFormed(AddProduct(t, category, model, price, costPrice).0)
    ensures Consistent(AddProduct(t, category, model, price, costPrice).0)
  {
    var r := AddProduct(t, category, model, price, costPrice);
    if r.1.Created? {
      var n := |t.products|;
      ReceivedNone(t.stockIns, n + 1);
      SoldNone(t.items, n + 1);
      forall i | 0 <= i < |r.0.products|
        ensures r.0.products[i].quantity == Received(r.0.stockIns, i + 1) - Sold(r.0.items, i + 1)
        ensures r.0.products[i].quantity >= 0
      {
        if i < n {
          assert r.0.products[i] == t.products[i];
        }
      }
    }
  }

  /** Adding a customer or a maintenance record leaves products and both
      ledgers as they were, so the invariant still holds. */
  lemma OtherTablesKeepConsistent(t: Tables, t': Tables)
    requires WellFormed(t') && Consistent(t)
    requires t'.products == t.products && t'.stockIns == t.stockIns && t'.items == t.items
    ensures Consistent(t')
  {
  }

  // ---------------------------------------------------------------------
  // Order numbers

  /** A reading of `datetime.now()`. */
  datatype Clock = Clock(year: nat, month: nat, day: nat, hour: nat, minute: nat, second: nat, microsecond: nat)

  predicate ValidClock(c: Clock) {
    && 1000 <= c.year <= 9999 && 1 <= c.month <= 12 && 1 <= c.day <= 31
    && c.hour < 24 && c.minute < 60 && c.second < 60 && c.microsecond < 1000000
  }

  /** `strftime("%Y%m%d%H%M%S")`. */
  function Timestamp(c: Clock): string {
    Text.Pad(c.year, 4) + Text.Pad(c.month, 2) + Text.Pad(c.day, 2)
    + Text.Pad(c.hour, 2) + Text.Pad(c.minute, 2) + Text.Pad(c.second, 2)
  }

  /** Python's `s[:3]`. */
  function Take3(s: string): string {
    if |s| <= 3 then s else s[..3]
  }

  /** The order number as the handlers build it: "SO", the timestamp of one
      `datetime.now()` call, then the first three characters of the
      unpadded microsecond of a second call. */
  function OrderNoAsWritten(first: Clock, second: Clock): string {
    "SO" + Timestamp(first) + Take3(Text.NatToString(second.microsecond))
  }

  /** Two instants 5 ms and 500 ms into the same second get the same number:
      the unpadded microsecond prefix is "500" for both. */
  lemma OrderNoAsWrittenCollides()
    ensures var early := Clock(2024, 1, 1, 12, 0, 0, 5000);
            var late := early.(microsecond := 500000);
            && ValidClock(early) && ValidClock(late)
            && early.microsecond / 1000 != late.microsecond / 1000
            && OrderNoAsWritten(early, early) == OrderNoAsWritten(late, late)
  {
    assert Text.NatToString(5) == "5";
    assert Text.NatToString(50) == "50";
    assert Text.NatToString(500) == "500";
    assert Text.NatToString(5000) == "5000";
    assert Text.NatToString(50000) == "50000";
    assert Text.NatToString(500000) == "500000";
  }

  /** The intended order number: one clock reading, and its millisecond
      zero-padded to three digits. */
  function OrderNo(now: Clock): string {
    "SO" + Timestamp(now) + Text.Pad(now.microsecond / 1000, 3)
  }

  lemma TimestampDecodes(c: Clock)
    requires ValidClock(c)
    ensures var s := Timestamp(c);
            && |s| == 14
            && Text.DigitsValue(s[0..4]) == c.year
            && Text.DigitsValue(s[4..6]) == c.month
            && Text.DigitsValue(s[6..8]) == c.day
            && Text.DigitsValue(s[8..10]) == c.hour
            && Text.DigitsValue(s[10..12]) == c.minute
            && Text.DigitsValue(s[12..14]) == c.second
  {
    Text.PadDecodes(c.year, 4);
    Text.PadDecodes(c.month, 2);
    Text.PadDecodes(c.day, 2);
    Text.PadDecodes(c.hour, 2);
    Text.PadDecodes(c.minute, 2);
    Text.PadDecodes(c.second, 2);
    var s := Timestamp(c);
    assert s[0..4] == Text.Pad(c.year, 4);
    assert s[4..6] == Text.Pad(c.month, 2);
    assert s[6..8] == Text.Pad(c.day, 2);
    assert s[8..10] == Text.Pad(c.hour, 2);
    assert s[10..12] == Text.Pad(c.minute, 2);
    assert s[12..14] == Text.Pad(c.second, 2);
  }

  /** Every order number has 19 characters, and two readings get the same
      number only when they agree to the millisecond. */
  lemma OrderNoInjective(a: Clock, b: Clock)
    requires ValidClock(a) && ValidClock(b)
    ensures |OrderNo(a)| == 19
    ensures OrderNo(a) == OrderNo(b) <==>
      a.(microsecond := 0) == b.(microsecond := 0) && a.microsecond / 1000 == b.microsecond / 1000
  {
    TimestampDecodes(a);
    TimestampDecodes(b);
    Text.PadDecodes(a.microsecond / 1000, 3);
    Text.PadDecodes(b.microsecond / 1000, 3);
    var sa, sb := OrderNo(a), OrderNo(b);
    assert sa[2..16] == Timestamp(a) && sa[16..] == Text.Pad(a.microsecond / 1000, 3);
    assert sb[2..16] == Timestamp(b) && sb[16..] == Text.Pad(b.microsecond / 1000, 3);
    if sa == sb {
      assert Timestamp(a) == Timestamp(b);
    }
  }
}
