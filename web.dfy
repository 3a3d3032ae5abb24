/** The Flask handlers of the web front-end: each POST handler reads its
    form, either rejects it without writing anything or issues its
    statements in order, and the inventory page filters products by model.
    Each handler is a method taking the `Database` object, proved against a
    function of the tables before the request. */
module Web {
  import opened Common
  import opened Schema
  import opened Ledger
  import Text
  import Db

  // ---------------------------------------------------------------------
  // Reading a form

  /** `request.form.get(name, type=int)`: `None` when the field is absent or
      `int()` rejects it. */
  function FormInt(raw: Option<string>): Option<int> {
    match raw
    case None => None
    case Some(s) => Text.ParseInt(s)
  }

  /** A select box posts the id as `str(id)`; reading it back gives the id. */
  lemma FormIntReadsId(id: int)
    ensures FormInt(Some(Text.IntToString(id))) == Some(id)
  {
    Text.ParseIntRoundTrip(id);
  }

  /** Python truthiness of an optional integer: neither `None` nor 0. */
  predicate Truthy(x: Option<int>) {
    x.Some? && x.value != 0
  }

  /** `(request.form.get(name) or "").strip()`. */
  function FormText(raw: Option<string>): string {
    Text.Strip(raw.GetOr(""))
  }

  // ---------------------------------------------------------------------
  // Stock-in

  datatype StockInForm = StockInForm(productId: Option<string>, quantity: Option<string>,
                                     costPrice: Option<real>, note: Option<string>)

  predicate StockInAccepted(f: StockInForm) {
    Truthy(FormInt(f.productId)) && FormInt(f.quantity).Some? && FormInt(f.quantity).value >= 1
  }

  /** The outcome of `stock_in_add`: rejected without writes unless a product
      and a quantity of at least 1 were given; otherwise the receipt with the
      cost defaulting to 0 and an empty note stored as NULL. */
  function StockInOutcome(t: Tables, f: StockInForm): (r: (Tables, Reply))
    ensures WellFormed(t) ==> WellFormed(r.0)
    ensures r.1 == Invalid <==> !StockInAccepted(f)
    ensures r.1 == Invalid || r.1.Crashed? ==> r.0 == t
    ensures r.1.Created? ==>
      var pid, q := FormInt(f.productId).value, FormInt(f.quantity).value;
      && r.0.stockIns == t.stockIns + [StockIn(r.1.id, pid, q, f.costPrice.GetOr(0.0), Text.NoneIfEmpty(FormText(f.note)))]
      && Quantity(r.0, pid) == Quantity(t, pid) + q
      && |r.0.products| == |t.products|
      && (forall i :: 0 <= i < |t.products| && i + 1 != pid ==> r.0.products[i] == t.products[i])
  {
    if !StockInAccepted(f) then (t, Invalid)
    else ReceiveStock(t, FormInt(f.productId).value, FormInt(f.quantity).value,
                      f.costPrice.GetOr(0.0), Text.NoneIfEmpty(FormText(f.note)))
  }

  method StockInAdd(db: Db.Database, f: StockInForm) returns (reply: Reply)
    requires db.Valid()
    modifies db
    ensures db.Valid()
    ensures (db.Snapshot(), reply) == StockInOutcome(old(db.Snapshot()), f)
  {
    var productId := FormInt(f.productId);
    var quantity := FormInt(f.quantity);
    var costPrice := f.costPrice;
    var note := FormText(f.note);
    if !Truthy(productId) || quantity.None? || quantity.value < 1 {
      return Invalid;
    }
    if costPrice.None? {
      costPrice := Some(0.0);
    }
    reply := Receive(db, productId.value, quantity.value, costPrice.value, Text.NoneIfEmpty(note));
  }

  // ---------------------------------------------------------------------
  // Products

  datatype ProductForm = ProductForm(category: Option<string>, model: Option<string>,
                                     price: Option<real>, costPrice: Option<real>)

  /** The outcome of `product_add`: a blank model is rejected; otherwise the
      stripped model is inserted with an empty category stored as NULL, a
      missing or zero price as 0, and quantity 0. */
  function ProductOutcome(t: Tables, f: ProductForm): (r: (Tables, Reply))
    ensures WellFormed(t) ==> WellFormed(r.0)
    ensures r.1 == Invalid <==> FormText(f.model) == []
    ensures r.1 in {Invalid, ModelExists} ==> r.0 == t
    ensures r.1 == ModelExists <==>
      FormText(f.model) != [] && exists i :: 0 <= i < |t.products| && t.products[i].model == FormText(f.model)
    ensures r.1.Created? ==>
      r.0.products == t.products + [Product(r.1.id, Text.NoneIfEmpty(FormText(f.category)), FormText(f.model),
                                            Some(f.price.GetOr(0.0)), Some(f.costPrice.GetOr(0.0)), 0)]
    ensures r.1 == Invalid || r.1 == ModelExists || r.1.Created?
  {
    var model := FormText(f.model);
    if model == [] then (t, Invalid)
    else AddProduct(t, Text.NoneIfEmpty(FormText(f.category)), model, f.price.GetOr(0.0), f.costPrice.GetOr(0.0))
  }

  method ProductAdd(db: Db.Database, f: ProductForm) returns (reply: Reply)
    requires db.Valid()
    modifies db
    ensures db.Valid()
    ensures (db.Snapshot(), reply) == ProductOutcome(old(db.Snapshot()), f)
  {
    var category := FormText(f.category);
    var model := FormText(f.model);
    var price := f.price.GetOr(0.0);
    var costPrice := f.costPrice.GetOr(0.0);
    if model == [] {
      return Invalid;
    }
    var inserted := db.InsertProduct(Text.NoneIfEmpty(category), model, price, costPrice);
    match inserted
    case Success(id) =>
      reply := Created(id);
    case Failure(e) =>
      reply := ClassifyInsertError(e);
  }

  // ---------------------------------------------------------------------
  // Inventory search

  /** SQL `LIKE` with `%` (any run), `_` (any one character) and `\` (take the
      next character literally). */
  function Like(s: string, p: string): bool
    decreases |s| + |p|
  {
    if p == [] then s == []
    else if p[0] == '%' then Like(s, p[1..]) || (s != [] && Like(s[1..], p))
    else if p[0] == '\\' && |p| >= 2 then s != [] && s[0] == p[1] && Like(s[1..], p[2..])
    else if p[0] == '_' then s != [] && Like(s[1..], p[1..])
    else s != [] && s[0] == p[0] && Like(s[1..], p[1..])
  }

  /** No character of `q` is special to `LIKE`. */
  predicate Literal(q: string) {
    forall i :: 0 <= i < |q| ==> q[i] != '%' && q[i] != '_' && q[i] != '\\'
  }

  lemma {:induction false} LikeAnything(s: string)
    ensures Like(s, "%")
    decreases |s|
  {
    if s != [] {
      LikeAnything(s[1..]);
    }
  }

  lemma {:induction false} LikePrefix(s: string, q: string)
    requires Literal(q)
    ensures Like(s, q + "%") <==> q <= s
    decreases |q|
  {
    if q == [] {
      assert q + "%" == "%";
      LikeAnything(s);
    } else {
      assert (q + "%")[1..] == q[1..] + "%";
      if s != [] {
        LikePrefix(s[1..], q[1..]);
      }
    }
  }

  /** `q in s` holds when `q` starts `s` or occurs in `s[1:]`, and only
      then. */
  lemma ContainsStep(s: string, q: string)
    ensures Text.Contains(s, q) <==> q <= s || (s != [] && Text.Contains(s[1..], q))
  {
    assert q <= s ==> q <= s[0..];
    if s != [] {
      if Text.Contains(s[1..], q) {
        ContainsInTail(s, q);
      }
      if Text.Contains(s, q) && !(q <= s) {
        ContainsNotAtHead(s, q);
      }
    }
  }

  lemma ContainsInTail(s: string, q: string)
    requires s != [] && Text.Contains(s[1..], q)
    ensures Text.Contains(s, q)
  {
    var i :| 0 <= i <= |s[1..]| - |q| && q <= s[1..][i..];
    assert s[1..][i..] == s[i + 1..];
  }

  lemma ContainsNotAtHead(s: string, q: string)
    requires s != [] && Text.Contains(s, q) && !(q <= s)
    ensures Text.Contains(s[1..], q)
  {
    var i :| 0 <= i <= |s| - |q| && q <= s[i..];
    assert i != 0 by {
      assert s[0..] == s;
    }
    assert s[1..][i - 1..] == s[i..];
  }

  /** For a search text without wildcards, `model LIKE '%q%'` holds exactly
      when the model contains `q`. */
  lemma {:induction false} LikeContains(s: string, q: string)
    requires Literal(q)
    ensures Like(s, "%" + q + "%") <==> Text.Contains(s, q)
    decreases |s|
  {
    var p := "%" + q + "%";
    assert p[1..] == q + "%";
    LikePrefix(s, q);
    ContainsStep(s, q);
    if s != [] {
      LikeContains(s[1..], q);
    }
  }

  /** The products whose model matches `pattern`, in table order. */
  function Matching(products: seq<Product>, pattern: string): (r: seq<Product>)
    ensures |r| <= |products|
    ensures forall p :: p in r <==> p in products && Like(p.model, pattern)
  {
    if products == [] then []
    else (if Like(products[0].model, pattern) then [products[0]] else []) + Matching(products[1..], pattern)
  }

  /** The `inventory` page: a blank search shows nothing; otherwise the
      products whose model is `LIKE '%q%'` for the stripped search text. */
  function Inventory(t: Tables, search: Option<string>): (r: seq<Product>)
    ensures FormText(search) == [] ==> r == []
    ensures forall p :: p in r ==> p in t.products
  {
    var q := FormText(search);
    if q == [] then [] else Matching(t.products, "%" + q + "%")
  }

  /** A search text without wildcards finds exactly the products whose model
      contains it. */
  lemma InventoryFindsSubstring(t: Tables, search: Option<string>, p: Product)
    requires FormText(search) != [] && Literal(FormText(search))
    ensures p in Inventory(t, search) <==> p in t.products && Text.Contains(p.model, FormText(search))
  {
    LikeContains(p.model, FormText(search));
  }

  // ---------------------------------------------------------------------
  // Customers

  datatype CustomerForm = CustomerForm(name: Option<string>, phone: Option<string>,
                                       address: Option<string>, note: Option<string>)

  /** The outcome of `customer_add`: a blank name is rejected; otherwise one
      customer with the stripped fields, blanks stored as NULL. */
  function CustomerOutcome(t: Tables, f: CustomerForm): (r: (Tables, Reply))
    ensures WellFormed(t) ==> WellFormed(r.0)
    ensures r.1 == Invalid <==> FormText(f.name) == []
    ensures r.1 == Invalid ==> r.0 == t
    ensures r.1 != Invalid ==>
      && r.1 == Created(|t.customers| + 1)
      && r.0 == t.(customers := t.customers + [Customer(r.1.id, FormText(f.name), Text.NoneIfEmpty(FormText(f.phone)),
                                                       Text.NoneIfEmpty(FormText(f.address)), Text.NoneIfEmpty(FormText(f.note)))])
  {
    var name := FormText(f.name);
    if name == [] then (t, Invalid)
    else
      var (t1, id) := InsertCustomer(t, name, Text.NoneIfEmpty(FormText(f.phone)),
                                     Text.NoneIfEmpty(FormText(f.address)), Text.NoneIfEmpty(FormText(f.note)));
      (t1, Created(id))
  }

  method CustomerAdd(db: Db.Database, f: CustomerForm) returns (reply: Reply)
    requires db.Valid()
    modifies db
    ensures db.Valid()
    ensures (db.Snapshot(), reply) == CustomerOutcome(old(db.Snapshot()), f)
  {
    var name := FormText(f.name);
    var phone := FormText(f.phone);
    var address := FormText(f.address);
    var note := FormText(f.note);
    if name == [] {
      return Invalid;
    }
    var id := db.InsertCustomer(name, Text.NoneIfEmpty(phone), Text.NoneIfEmpty(address), Text.NoneIfEmpty(note));
    reply := Created(id);
  }

  // ---------------------------------------------------------------------
  // Sales

  datatype SaleForm = SaleForm(customerId: Option<string>, productId: Option<string>,
                               quantity: Option<string>, unitPrice: Option<real>)

  predicate SaleAccepted(f: SaleForm) {
    && Truthy(FormInt(f.customerId)) && Truthy(FormInt(f.productId))
    && Truthy(FormInt(f.quantity)) && FormInt(f.quantity).value >= 1
  }

  /** The outcome of `sale_add` at clock reading `now`: rejected without
      writes unless a customer, a product and a quantity of at least 1 were
      given; then the stock check and the sale, with the unit price
      defaulting to 0. */
  function SaleOutcome(t: Tables, f: SaleForm, now: Clock): (r: (Tables, Reply))
    ensures WellFormed(t) ==> WellFormed(r.0)
    ensures r.1 == Invalid <==> !SaleAccepted(f)
    ensures !r.1.SoldAs? ==> r.0 == t
    ensures r.1.SoldAs? ==>
      var pid, q, price := FormInt(f.productId).value, FormInt(f.quantity).value, f.unitPrice.GetOr(0.0);
      && r.1.orderNo == OrderNo(now)
      && r.0.orders == t.orders + [SaleOrder(|t.orders| + 1, OrderNo(now), FormInt(f.customerId).value, q as real * price)]
      && r.0.items == t.items + [SaleOrderItem(|t.items| + 1, |t.orders| + 1, pid, q, price)]
      && Quantity(r.0, pid) == Quantity(t, pid) - q >= 0
  {
    if !SaleAccepted(f) then (t, Invalid)
    else PlaceSale(t, FormInt(f.customerId).value, FormInt(f.productId).value, FormInt(f.quantity).value,
                   f.unitPrice.GetOr(0.0), OrderNo(now))
  }

  method SaleAdd(db: Db.Database, f: SaleForm, now: Clock) returns (reply: Reply)
    requires db.Valid()
    modifies db
    ensures db.Valid()
    ensures (db.Snapshot(), reply) == SaleOutcome(old(db.Snapshot()), f, now)
  {
    var customerId := FormInt(f.customerId);
    var productId := FormInt(f.productId);
    var quantity := FormInt(f.quantity);
    var unitPrice := f.unitPrice;
    if !Truthy(customerId) || !Truthy(productId) || !Truthy(quantity) || quantity.value < 1 {
      return Invalid;
    }
    if unitPrice.None? {
      unitPrice := Some(0.0);
    }
    reply := Sell(db, customerId.value, productId.value, quantity.value, unitPrice.value, OrderNo(now));
  }

  // ---------------------------------------------------------------------
  // Maintenance

  datatype MaintenanceForm = MaintenanceForm(customerId: Option<string>, productId: Option<string>,
                                             content: Option<string>, result: Option<string>)

  /** `request.form.get("product_id", type=int) or None`. */
  function OptionalProduct(raw: Option<string>): (r: Option<int>)
    ensures r.None? <==> !Truthy(FormInt(raw))
  {
    if Truthy(FormInt(raw)) then FormInt(raw) else None
  }

  /** The outcome of `maintenance_add`: rejected without writes unless a
      customer was given; a missing or zero product is stored as NULL, blank
      texts as NULL. */
  function MaintenanceOutcome(t: Tables, f: MaintenanceForm): (r: (Tables, Reply))
    ensures WellFormed(t) ==> WellFormed(r.0)
    ensures r.1 == Invalid <==> !Truthy(FormInt(f.customerId))
    ensures r.1 == Invalid || r.1.Crashed? ==> r.0 == t
    ensures r.1.Created? ==>
      r.0 == t.(maintenance := t.maintenance + [Maintenance(|t.maintenance| + 1, FormInt(f.customerId).value,
                  OptionalProduct(f.productId), Text.NoneIfEmpty(FormText(f.content)), Text.NoneIfEmpty(FormText(f.result)))])
    ensures r.1 == Invalid || r.1.Crashed? || r.1 == Created(|t.maintenance| + 1)
  {
    var customerId := FormInt(f.customerId);
    if !Truthy(customerId) then (t, Invalid)
    else
      var (t1, ins) := InsertMaintenance(t, customerId.value, OptionalProduct(f.productId),
                                         Text.NoneIfEmpty(FormText(f.content)), Text.NoneIfEmpty(FormText(f.result)));
      match ins
      case Failure(e) => (t1, Crashed(e))
      case Success(id) => (t1, Created(id))
  }

  method MaintenanceAdd(db: Db.Database, f: MaintenanceForm) returns (reply: Reply)
    requires db.Valid()
    modifies db
    ensures db.Valid()
    ensures (db.Snapshot(), reply) == MaintenanceOutcome(old(db.Snapshot()), f)
  {
    var customerId := FormInt(f.customerId);
    var productId := OptionalProduct(f.productId);
    var content := FormText(f.content);
    var result := FormText(f.result);
    if !Truthy(customerId) {
      return Invalid;
    }
    var inserted := db.InsertMaintenance(customerId.value, productId, Text.NoneIfEmpty(content), Text.NoneIfEmpty(result));
    match inserted
    case Failure(e) =>
      reply := Crashed(e);
    case Success(id) =>
      reply := Created(id);
  }

  // ---------------------------------------------------------------------
  // Any sequence of requests

  datatype Request =
    | StockInRequest(stockIn: StockInForm)
    | ProductRequest(product: ProductForm)
    | CustomerRequest(customer: CustomerForm)
    | SaleRequest(sale: SaleForm, now: Clock)
    | MaintenanceRequest(maintenance: MaintenanceForm)

  function Handle(t: Tables, req: Request): (Tables, Reply) {
    match req
    case StockInRequest(f) => StockInOutcome(t, f)
    case ProductRequest(f) => ProductOutcome(t, f)
    case CustomerRequest(f) => CustomerOutcome(t, f)
    case SaleRequest(f, now) => SaleOutcome(t, f, now)
    case MaintenanceRequest(f) => MaintenanceOutcome(t, f)
  }

  /** The tables after handling `reqs` one after another. */
  function Run(t: Tables, reqs: seq<Request>): Tables
    decreases |reqs|
  {
    if reqs == [] then t else Run(Handle(t, reqs[0]).0, reqs[1..])
  }

  /** Every product of `t` is still there in `t'`, and its quantity moved by
      exactly what was received minus what was sold in between. */
  predicate Conserves(t: Tables, t': Tables) {
    && |t.products| <= |t'.products|
    && forall p :: 1 <= p <= |t.products| ==>
         Quantity(t', p) - Quantity(t, p)
         == (Received(t'.stockIns, p) - Received(t.stockIns, p)) - (Sold(t'.items, p) - Sold(t.items, p))
  }

  lemma StockInConserves(t: Tables, f: StockInForm)
    requires WellFormed(t)
    ensures Conserves(t, StockInOutcome(t, f).0)
  {
    if StockInAccepted(f) {
      ReceiveStockConserves(t, FormInt(f.productId).value, FormInt(f.quantity).value,
                            f.costPrice.GetOr(0.0), Text.NoneIfEmpty(FormText(f.note)));
    }
  }

  /** A receipt adds its quantity to its product and one row to the
      received ledger. */
  lemma ReceiveStockConserves(t: Tables, productId: int, quantity: int, costPrice: real, note: Option<string>)
    ensures Conserves(t, ReceiveStock(t, productId, quantity, costPrice, note).0)
  {
    var r := ReceiveStock(t, productId, quantity, costPrice, note);
    if r.1.Created? {
      var row := r.0.stockIns[|t.stockIns|];
      forall p | 1 <= p <= |t.products|
        ensures Quantity(r.0, p) - Quantity(t, p)
          == (Received(r.0.stockIns, p) - Received(t.stockIns, p)) - (Sold(r.0.items, p) - Sold(t.items, p))
      {
        ReceivedAppend(t.stockIns, row, p);
      }
    }
  }

  lemma SaleConserves(t: Tables, f: SaleForm, now: Clock)
    requires WellFormed(t)
    ensures Conserves(t, SaleOutcome(t, f, now).0)
  {
    if SaleAccepted(f) {
      PlaceSaleConserves(t, FormInt(f.customerId).value, FormInt(f.productId).value,
                         FormInt(f.quantity).value, f.unitPrice.GetOr(0.0), OrderNo(now));
    }
  }

  /** A sale takes its quantity from its product and adds one row to the
      sold ledger. */
  lemma PlaceSaleConserves(t: Tables, customerId: int, productId: int, quantity: int, unitPrice: real, orderNo: string)
    ensures Conserves(t, PlaceSale(t, customerId, productId, quantity, unitPrice, orderNo).0)
  {
    var r := PlaceSale(t, customerId, productId, quantity, unitPrice, orderNo);
    if r.1.SoldAs? {
      var item := r.0.items[|t.items|];
      forall p | 1 <= p <= |t.products|
        ensures Quantity(r.0, p) - Quantity(t, p)
          == (Received(r.0.stockIns, p) - Received(t.stockIns, p)) - (Sold(r.0.items, p) - Sold(t.items, p))
      {
        SoldAppend(t.items, item, p);
      }
    }
  }

  lemma ProductConserves(t: Tables, f: ProductForm)
    requires WellFormed(t)
    ensures Conserves(t, ProductOutcome(t, f).0)
  {
    var r := ProductOutcome(t, f);
    if r.1.Created? {
      forall p | 1 <= p <= |t.products| ensures Quantity(r.0, p) == Quantity(t, p) {
        assert r.0.products[p - 1] == t.products[p - 1];
      }
    }
  }

  lemma HandleConserves(t: Tables, req: Request)
    requires WellFormed(t)
    ensures WellFormed(Handle(t, req).0)
    ensures Conserves(t, Handle(t, req).0)
  {
    match req
    case StockInRequest(f) => StockInConserves(t, f);
    case ProductRequest(f) => ProductConserves(t, f);
    case CustomerRequest(f) =>
    case SaleRequest(f, now) => SaleConserves(t, f, now);
    case MaintenanceRequest(f) =>
  }

  /** Over any sequential run of requests, each product's quantity equals
      its initial value plus everything received minus everything sold. */
  lemma {:induction false} RunConserves(t: Tables, reqs: seq<Request>)
    requires WellFormed(t)
    ensures WellFormed(Run(t, reqs))
    ensures Conserves(t, Run(t, reqs))
    decreases |reqs|
  {
    if reqs != [] {
      var t1 := Handle(t, reqs[0]).0;
      HandleConserves(t, reqs[0]);
      RunConserves(t1, reqs[1..]);
    }
  }

  lemma HandleKeepsConsistent(t: Tables, req: Request)
    requires WellFormed(t) && Consistent(t)
    ensures Consistent(Handle(t, req).0)
  {
    match req
    case StockInRequest(f) =>
      if StockInAccepted(f) {
        ReceiveStockKeepsConsistent(t, FormInt(f.productId).value, FormInt(f.quantity).value,
                                    f.costPrice.GetOr(0.0), Text.NoneIfEmpty(FormText(f.note)));
      }
    case ProductRequest(f) =>
      if FormText(f.model) != [] {
        AddProductKeepsConsistent(t, Text.NoneIfEmpty(FormText(f.category)), FormText(f.model),
                                  f.price.GetOr(0.0), f.costPrice.GetOr(0.0));
      }
    case CustomerRequest(f) =>
      OtherTablesKeepConsistent(t, Handle(t, req).0);
    case SaleRequest(f, now) =>
      if SaleAccepted(f) {
        PlaceSaleKeepsConsistent(t, FormInt(f.customerId).value, FormInt(f.productId).value,
                                 FormInt(f.quantity).value, f.unitPrice.GetOr(0.0), OrderNo(now));
      }
    case MaintenanceRequest(f) =>
      OtherTablesKeepConsistent(t, Handle(t, req).0);
  }

  /** No sequence of requests breaks the inventory invariant: quantities stay
      equal to received minus sold and never go negative. */
  lemma {:induction false} RunKeepsConsistent(t: Tables, reqs: seq<Request>)
    requires WellFormed(t) && Consistent(t)
    ensures Consistent(Run(t, reqs))
    decreases |reqs|
  {
    if reqs != [] {
      HandleConserves(t, reqs[0]);
      HandleKeepsConsistent(t, reqs[0]);
      RunKeepsConsistent(Handle(t, reqs[0]).0, reqs[1..]);
    }
  }
}
