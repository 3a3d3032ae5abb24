/** The Streamlit front-end: the option labels its select boxes show, the
    default unit price on the sale page, and what each page does once its
    form is submitted. A select box can only return one of its own labels,
    so each submission requires the chosen label to be a key of the options
    the page built from the current tables. */
module Dashboard {
  import opened Common
  import opened Schema
  import opened Ledger
  import Text
  import Db

  // ---------------------------------------------------------------------
  // Option labels

  /** A dict comprehension `{key(x): val(x) for x in xs}`. */
  function LastWins<T>(xs: seq<T>, key: T -> string, val: T -> int): map<string, int> {
    if xs == [] then map[]
    else LastWins(xs[..|xs| - 1], key, val)[key(xs[|xs| - 1]) := val(xs[|xs| - 1])]
  }

  /** Every element's key is in the dict, and each key maps to the value of
      the last element carrying it. */
  lemma {:induction false} LastWinsKeepsLast<T>(xs: seq<T>, key: T -> string, val: T -> int)
    ensures forall i :: 0 <= i < |xs| ==> key(xs[i]) in LastWins(xs, key, val)
    ensures forall k :: k in LastWins(xs, key, val) ==>
      exists i :: 0 <= i < |xs| && key(xs[i]) == k && val(xs[i]) == LastWins(xs, key, val)[k]
                  && forall j :: i < j < |xs| ==> key(xs[j]) != k
  {
    if xs != [] {
      var n := |xs| - 1;
      var prefix := xs[..n];
      LastWinsKeepsLast(prefix, key, val);
      var prev := LastWins(prefix, key, val);
      var m := LastWins(xs, key, val);
      assert m == prev[key(xs[n]) := val(xs[n])];
      forall i | 0 <= i < |xs| ensures key(xs[i]) in m {
        if i < n {
          assert prefix[i] == xs[i];
        }
      }
      forall k | k in m
        ensures exists i :: 0 <= i < |xs| && key(xs[i]) == k && val(xs[i]) == m[k]
                            && forall j :: i < j < |xs| ==> key(xs[j]) != k
      {
        if k == key(xs[n]) {
          assert key(xs[n]) == k && val(xs[n]) == m[k];
        } else {
          var i :| 0 <= i < n && key(prefix[i]) == k && val(prefix[i]) == prev[k]
                   && forall j :: i < j < n ==> key(prefix[j]) != k;
          assert prefix[i] == xs[i];
          forall j | i < j < |xs| ensures key(xs[j]) != k {
            if j < n {
              assert prefix[j] == xs[j];
            }
          }
        }
      }
    }
  }

  /** An element whose key no later element repeats is what its key maps to. */
  lemma LastWinsPicksLast<T>(xs: seq<T>, key: T -> string, val: T -> int, i: int)
    requires 0 <= i < |xs|
    requires forall j :: i < j < |xs| ==> key(xs[j]) != key(xs[i])
    ensures key(xs[i]) in LastWins(xs, key, val) && LastWins(xs, key, val)[key(xs[i])] == val(xs[i])
  {
    LastWinsKeepsLast(xs, key, val);
    var m := LastWins(xs, key, val);
    var k := key(xs[i]);
    var i' :| 0 <= i' < |xs| && key(xs[i']) == k && val(xs[i']) == m[k] && forall j :: i' < j < |xs| ==> key(xs[j]) != k;
    assert key(xs[i]) == k && key(xs[i']) == k;
  }

  /** `"<category> - "` when the category is set and non-empty, else nothing. */
  function CategoryPrefix(category: Option<string>): string {
    if category.Some? && category.value != [] then category.value + " - " else ""
  }

  /** The stock-in and sale pages' product label: category prefix, model,
      then the on-hand quantity in full-width brackets. */
  function ProductLabel(p: Product): string {
    CategoryPrefix(p.category) + p.model + "（库存 " + Text.IntToString(p.quantity) + "）"
  }

  /** The maintenance page's product label: category prefix and model. */
  function ProductName(p: Product): string {
    CategoryPrefix(p.category) + p.model
  }

  function ProductOptions(products: seq<Product>): (m: map<string, int>)
    ensures forall i :: 0 <= i < |products| ==> ProductLabel(products[i]) in m
    ensures forall k :: k in m ==> exists i :: 0 <= i < |products| && ProductLabel(products[i]) == k && products[i].id == m[k]
  {
    LastWinsKeepsLast(products, ProductLabel, (x: Product) => x.id);
    LastWins(products, ProductLabel, (x: Product) => x.id)
  }

  /** A product whose label no later product shares is selected by it. */
  lemma ProductOptionSelects(products: seq<Product>, i: int)
    requires 0 <= i < |products|
    requires forall j :: i < j < |products| ==> ProductLabel(products[j]) != ProductLabel(products[i])
    ensures ProductOptions(products)[ProductLabel(products[i])] == products[i].id
  {
    LastWinsPicksLast(products, ProductLabel, (x: Product) => x.id, i);
  }

  /** Two distinct models can share a label: a model that itself contains
      " - " and no category looks like a category plus a model, and only the
      later product can then be picked. */
  lemma ProductLabelsCollide()
    ensures var a := Product(1, None, "A - B", None, None, 0);
            var b := Product(2, Some("A"), "B", None, None, 0);
            && a.model != b.model
            && ProductLabel(a) == ProductLabel(b)
            && ProductOptions([a, b]) == map[ProductLabel(a) := 2]
  {
    var a := Product(1, None, "A - B", None, None, 0);
    var b := Product(2, Some("A"), "B", None, None, 0);
    assert ProductLabel(a) == ProductLabel(b);
    var id := (x: Product) => x.id;
    assert [a, b][..1] == [a] && [a][..0] == [];
    assert LastWins([a], ProductLabel, id) == map[ProductLabel(a) := 1];
  }

  /** With the same category and quantity, the label determines the model. */
  lemma ProductLabelDeterminesModel(a: Product, b: Product)
    requires a.category == b.category && a.quantity == b.quantity
    requires ProductLabel(a) == ProductLabel(b)
    ensures a.model == b.model
  {
    var prefix := CategoryPrefix(a.category);
    var suffix := "（库存 " + Text.IntToString(a.quantity) + "）";
    assert ProductLabel(a) == prefix + a.model + suffix;
    assert ProductLabel(b) == prefix + b.model + suffix;
    assert |a.model| == |b.model|;
    assert a.model == ProductLabel(a)[|prefix|..|prefix| + |a.model|];
    assert b.model == ProductLabel(b)[|prefix|..|prefix| + |b.model|];
  }

  function MaintenanceProductOptions(products: seq<Product>): (m: map<string, int>)
    ensures forall i :: 0 <= i < |products| ==> ProductName(products[i]) in m
    ensures forall k :: k in m ==> exists i :: 0 <= i < |products| && ProductName(products[i]) == k && products[i].id == m[k]
  {
    LastWinsKeepsLast(products, ProductName, (x: Product) => x.id);
    LastWins(products, ProductName, (x: Product) => x.id)
  }

  /** The sale page's customer label: the name, a space, and the phone or
      nothing. */
  function CustomerLabel(c: Customer): string {
    c.name + " " + c.phone.GetOr("")
  }

  function CustomerOptions(customers: seq<Customer>): (m: map<string, int>)
    ensures forall i :: 0 <= i < |customers| ==> CustomerLabel(customers[i]) in m
    ensures forall k :: k in m ==> exists i :: 0 <= i < |customers| && CustomerLabel(customers[i]) == k && customers[i].id == m[k]
  {
    LastWinsKeepsLast(customers, CustomerLabel, (x: Customer) => x.id);
    LastWins(customers, CustomerLabel, (x: Customer) => x.id)
  }

  /** The maintenance page keys its customers by name alone. */
  function NameOptions(customers: seq<Customer>): (m: map<string, int>)
    ensures forall i :: 0 <= i < |customers| ==> customers[i].name in m
    ensures forall k :: k in m ==> exists i :: 0 <= i < |customers| && customers[i].name == k && customers[i].id == m[k]
  {
    LastWinsKeepsLast(customers, (c: Customer) => c.name, (x: Customer) => x.id);
    LastWins(customers, (c: Customer) => c.name, (x: Customer) => x.id)
  }

  /** On the maintenance page, a customer sharing its name with a later
      customer is not offered: no option selects its id. */
  lemma SameNameHidesCustomer(customers: seq<Customer>, i: int, j: int)
    requires CustomersOk(customers)
    requires 0 <= i < j < |customers| && customers[i].name == customers[j].name
    ensures forall k :: k in NameOptions(customers) ==> NameOptions(customers)[k] != customers[i].id
  {
    var name := (c: Customer) => c.name;
    var id := (x: Customer) => x.id;
    var m := NameOptions(customers);
    LastWinsKeepsLast(customers, name, id);
    forall k | k in m ensures m[k] != customers[i].id {
      var i' :| 0 <= i' < |customers| && name(customers[i']) == k && id(customers[i']) == m[k]
                && forall j' :: i' < j' < |customers| ==> name(customers[j']) != k;
      assert name(customers[j]) == name(customers[i]);
    }
  }

  /** The products the sale page offers: those with stock. */
  function SaleCandidates(products: seq<Product>): (r: seq<Product>)
    ensures forall p :: p in r <==> p in products && p.quantity > 0
    ensures |r| <= |products|
  {
    if products == [] then []
    else (if products[0].quantity > 0 then [products[0]] else []) + SaleCandidates(products[1..])
  }

  // ---------------------------------------------------------------------
  // Default unit price

  /** The price of the first listed product with this id, 0 when it has no
      price or no product has the id. */
  function PriceOf(products: seq<Product>, id: int): (price: real)
    ensures (forall i :: 0 <= i < |products| ==> products[i].id != id) ==> price == 0.0
    ensures forall i :: 0 <= i < |products| && products[i].id == id && (forall j :: 0 <= j < i ==> products[j].id != id)
                        ==> price == products[i].price.GetOr(0.0)
  {
    if products == [] then 0.0
    else if products[0].id == id then products[0].price.GetOr(0.0)
    else
      var rest := PriceOf(products[1..], id);
      assert forall i :: 1 <= i < |products| ==> products[1..][i - 1] == products[i];
      rest
  }

  /** The sale page's loop: scan the offered products and stop at the
      selected one. */
  method DefaultPrice(products: seq<Product>, selectedId: int) returns (price: real)
    ensures price == PriceOf(products, selectedId)
  {
    price := 0.0;
    var k := 0;
    while k < |products|
      invariant 0 <= k <= |products|
      invariant forall j :: 0 <= j < k ==> products[j].id != selectedId
      invariant price == 0.0
    {
      if products[k].id == selectedId {
        price := products[k].price.GetOr(0.0);
        break;
      }
      k := k + 1;
    }
  }

  /** When every listed product with this id is `p`, the price is `p`'s. */
  lemma {:induction false} PriceOfUnique(products: seq<Product>, p: Product)
    requires p in products
    requires forall j :: 0 <= j < |products| && products[j].id == p.id ==> products[j] == p
    ensures PriceOf(products, p.id) == p.price.GetOr(0.0)
  {
    if products[0] != p {
      assert forall j :: 0 <= j < |products| - 1 ==> products[1..][j] == products[j + 1];
      PriceOfUnique(products[1..], p);
    }
  }

  /** For a product of the table the default is that product's price, and
      a product with stock is offered with that same default. */
  lemma DefaultPriceIsProductPrice(t: Tables, id: int)
    requires ProductsOk(t.products) && ProductById(t, id).Some?
    ensures PriceOf(t.products, id) == ProductById(t, id).value.price.GetOr(0.0)
    ensures ProductById(t, id).value.quantity > 0 ==>
      && ProductById(t, id).value in SaleCandidates(t.products)
      && PriceOf(SaleCandidates(t.products), id) == ProductById(t, id).value.price.GetOr(0.0)
  {
    var p := t.products[id - 1];
    PriceOfUnique(t.products, p);
    if p.quantity > 0 {
      var cs := SaleCandidates(t.products);
      forall j | 0 <= j < |cs| && cs[j].id == id ensures cs[j] == p {
        assert cs[j] in t.products;
      }
      PriceOfUnique(cs, p);
    }
  }

  // ---------------------------------------------------------------------
  // Submitted forms

  /** `page_products`: a blank model is rejected; the model is stored
      stripped, the category as typed (empty becomes NULL). */
  function ProductSubmitted(t: Tables, category: string, model: string, price: real, costPrice: real)
    : (r: (Tables, Reply))
    ensures WellFormed(t) ==> WellFormed(r.0)
    ensures r.1 == Invalid <==> Text.Strip(model) == []
    ensures r.1 in {Invalid, ModelExists} ==> r.0 == t
    ensures r.1.Created? ==>
      r.0.products == t.products + [Product(r.1.id, Text.NoneIfEmpty(category), Text.Strip(model), Some(price), Some(costPrice), 0)]
  {
    if Text.Strip(model) == [] then (t, Invalid)
    else AddProduct(t, Text.NoneIfEmpty(category), Text.Strip(model), price, costPrice)
  }

  method ProductSubmit(db: Db.Database, category: string, model: string, price: real, costPrice: real)
    returns (reply: Reply)
    requires db.Valid()
    modifies db
    ensures db.Valid()
    ensures (db.Snapshot(), reply) == ProductSubmitted(old(db.Snapshot()), category, model, price, costPrice)
  {
    if Text.Strip(model) == [] {
      return Invalid;
    }
    var inserted := db.InsertProduct(Text.NoneIfEmpty(category), Text.Strip(model), price, costPrice);
    match inserted
    case Success(id) =>
      reply := Created(id);
    case Failure(e) =>
      reply := ClassifyInsertError(e);
  }

  /** `page_stock_in`: the product behind the chosen label receives the
      entered quantity. */
  function StockInSubmitted(t: Tables, choice: string, quantity: int, costPrice: real, note: string)
    : (r: (Tables, Reply))
    requires choice in ProductOptions(t.products)
    ensures WellFormed(t) ==> WellFormed(r.0)
    ensures r.1.Created? ==>
      var pid := ProductOptions(t.products)[choice];
      && r.0.stockIns == t.stockIns + [StockIn(r.1.id, pid, quantity, costPrice, Text.NoneIfEmpty(note))]
      && Quantity(r.0, pid) == Quantity(t, pid) + quantity
  {
    ReceiveStock(t, ProductOptions(t.products)[choice], quantity, costPrice, Text.NoneIfEmpty(note))
  }

  method StockInSubmit(db: Db.Database, choice: string, quantity: int, costPrice: real, note: string)
    returns (reply: Reply)
    requires db.Valid() && choice in ProductOptions(db.products)
    modifies db
    ensures db.Valid()
    ensures (db.Snapshot(), reply) == StockInSubmitted(old(db.Snapshot()), choice, quantity, costPrice, note)
  {
    var options := ProductOptions(db.products);
    var productId := options[choice];
    reply := Receive(db, productId, quantity, costPrice, Text.NoneIfEmpty(note));
  }

  /** On a well-formed database every label of the stock-in page names an
      existing product, so the receipt goes through. */
  lemma StockInSubmittedCreates(t: Tables, choice: string, quantity: int, costPrice: real, note: string)
    requires WellFormed(t) && choice in ProductOptions(t.products)
    ensures StockInSubmitted(t, choice, quantity, costPrice, note).1.Created?
  {
    var i :| 0 <= i < |t.products| && ProductLabel(t.products[i]) == choice
             && t.products[i].id == ProductOptions(t.products)[choice];
  }

  /** `page_customers`: a blank name is rejected; the name is stored
      stripped, the other fields as typed (empty becomes NULL). */
  function CustomerSubmitted(t: Tables, name: string, phone: string, address: string, note: string)
    : (r: (Tables, Reply))
    ensures WellFormed(t) ==> WellFormed(r.0)
    ensures r.1 == Invalid <==> Text.Strip(name) == []
    ensures r.1 == Invalid ==> r.0 == t
    ensures r.1 != Invalid ==>
      && r.1 == Created(|t.customers| + 1)
      && r.0 == t.(customers := t.customers + [Customer(r.1.id, Text.Strip(name), Text.NoneIfEmpty(phone),
                                                       Text.NoneIfEmpty(address), Text.NoneIfEmpty(note))])
  {
    if Text.Strip(name) == [] then (t, Invalid)
    else
      var (t1, id) := InsertCustomer(t, Text.Strip(name), Text.NoneIfEmpty(phone), Text.NoneIfEmpty(address), Text.NoneIfEmpty(note));
      (t1, Created(id))
  }

  method CustomerSubmit(db: Db.Database, name: string, phone: string, address: string, note: string)
    returns (reply: Reply)
    requires db.Valid()
    modifies db
    ensures db.Valid()
    ensures (db.Snapshot(), reply) == CustomerSubmitted(old(db.Snapshot()), name, phone, address, note)
  {
    if Text.Strip(name) == [] {
      return Invalid;
    }
    var id := db.InsertCustomer(Text.Strip(name), Text.NoneIfEmpty(phone), Text.NoneIfEmpty(address), Text.NoneIfEmpty(note));
    reply := Created(id);
  }

  /** `page_sales`: the customer and product behind the chosen labels, the
      stock check, then the sale. */
  function SaleSubmitted(t: Tables, customerLabel: string, productLabel: string, quantity: int, unitPrice: real, now: Clock)
    : (r: (Tables, Reply))
    requires customerLabel in CustomerOptions(t.customers)
    requires productLabel in ProductOptions(SaleCandidates(t.products))
    ensures WellFormed(t) ==> WellFormed(r.0)
    ensures !r.1.SoldAs? ==> r.0 == t
    ensures r.1.SoldAs? ==>
      var pid := ProductOptions(SaleCandidates(t.products))[productLabel];
      && r.0.orders == t.orders + [SaleOrder(|t.orders| + 1, OrderNo(now), CustomerOptions(t.customers)[customerLabel],
                                             quantity as real * unitPrice)]
      && r.0.items == t.items + [SaleOrderItem(|t.items| + 1, |t.orders| + 1, pid, quantity, unitPrice)]
      && Quantity(r.0, pid) == Quantity(t, pid) - quantity >= 0
  {
    PlaceSale(t, CustomerOptions(t.customers)[customerLabel], ProductOptions(SaleCandidates(t.products))[productLabel],
              quantity, unitPrice, OrderNo(now))
  }

  method SaleSubmit(db: Db.Database, customerLabel: string, productLabel: string, quantity: int, unitPrice: real, now: Clock)
    returns (reply: Reply)
    requires db.Valid()
    requires customerLabel in CustomerOptions(db.customers)
    requires productLabel in ProductOptions(SaleCandidates(db.products))
    modifies db
    ensures db.Valid()
    ensures (db.Snapshot(), reply) == SaleSubmitted(old(db.Snapshot()), customerLabel, productLabel, quantity, unitPrice, now)
  {
    var customerId := CustomerOptions(db.customers)[customerLabel];
    var productId := ProductOptions(SaleCandidates(db.products))[productLabel];
    reply := Sell(db, customerId, productId, quantity, unitPrice, OrderNo(now));
  }

  /** Every customer label offered on a well-formed table names an existing
      customer id. */
  lemma CustomerOptionsExist(customers: seq<Customer>, choice: string)
    requires CustomersOk(customers)
    requires choice in CustomerOptions(customers)
    ensures 1 <= CustomerOptions(customers)[choice] <= |customers|
  {
    var c :| 0 <= c < |customers| && CustomerLabel(customers[c]) == choice
             && customers[c].id == CustomerOptions(customers)[choice];
  }

  /** Every product label offered for sale on a well-formed table names an
      existing product id. */
  lemma SaleOptionsExist(products: seq<Product>, choice: string)
    requires ProductsOk(products)
    requires choice in ProductOptions(SaleCandidates(products))
    ensures 1 <= ProductOptions(SaleCandidates(products))[choice] <= |products|
  {
    var cs := SaleCandidates(products);
    var i :| 0 <= i < |cs| && ProductLabel(cs[i]) == choice && cs[i].id == ProductOptions(cs)[choice];
    assert cs[i] in products;
    var j :| 0 <= j < |products| && products[j] == cs[i];
  }

  /** On a well-formed database the sale page's labels name an existing
      customer and an existing product, so a sale either sells or is refused
      for want of stock, and it sells exactly when the stock suffices. */
  lemma SaleSubmittedSells(t: Tables, customerLabel: string, productLabel: string, quantity: int, unitPrice: real, now: Clock)
    requires WellFormed(t)
    requires customerLabel in CustomerOptions(t.customers)
    requires productLabel in ProductOptions(SaleCandidates(t.products))
    ensures var r := SaleSubmitted(t, customerLabel, productLabel, quantity, unitPrice, now);
            && (r.1.OutOfStock? || r.1 == SoldAs(OrderNo(now)))
            && (r.1.SoldAs? <==> quantity <= Quantity(t, ProductOptions(SaleCandidates(t.products))[productLabel]))
  {
    CustomerOptionsExist(t.customers, customerLabel);
    SaleOptionsExist(t.products, productLabel);
    var cid := CustomerOptions(t.customers)[customerLabel];
    var pid := ProductOptions(SaleCandidates(t.products))[productLabel];
    var r := PlaceSale(t, cid, pid, quantity, unitPrice, OrderNo(now));
    assert SaleSubmitted(t, customerLabel, productLabel, quantity, unitPrice, now) == r;
    assert ProductById(t, pid).Some?;
  }

  /** The "no product" entry of the maintenance page's product box. */
  const NoProduct := "—"

  /** `page_maintenance`: the customer behind the chosen name, the product
      behind the chosen label or NULL for "—", texts as typed (empty becomes
      NULL). */
  function MaintenanceSubmitted(t: Tables, customerLabel: string, productLabel: string, content: string, result: string)
    : (r: (Tables, Reply))
    requires customerLabel in NameOptions(t.customers)
    requires productLabel == NoProduct || productLabel in MaintenanceProductOptions(t.products)
    ensures WellFormed(t) ==> WellFormed(r.0)
    ensures r.1.Created? ==>
      var productId := if productLabel == NoProduct then None else Some(MaintenanceProductOptions(t.products)[productLabel]);
      r.0 == t.(maintenance := t.maintenance + [Maintenance(r.1.id, NameOptions(t.customers)[customerLabel], productId,
                                                          Text.NoneIfEmpty(content), Text.NoneIfEmpty(result))])
    ensures !r.1.Created? ==> r.0 == t
  {
    var productId := if productLabel == NoProduct then None else Some(MaintenanceProductOptions(t.products)[productLabel]);
    var (t1, ins) := InsertMaintenance(t, NameOptions(t.customers)[customerLabel], productId,
                                       Text.NoneIfEmpty(content), Text.NoneIfEmpty(result));
    match ins
    case Failure(e) => (t1, Crashed(e))
    case Success(id) => (t1, Created(id))
  }

  method MaintenanceSubmit(db: Db.Database, customerLabel: string, productLabel: string, content: string, result: string)
    returns (reply: Reply)
    requires db.Valid()
    requires customerLabel in NameOptions(db.customers)
    requires productLabel == NoProduct || productLabel in MaintenanceProductOptions(db.products)
    modifies db
    ensures db.Valid()
    ensures (db.Snapshot(), reply) == MaintenanceSubmitted(old(db.Snapshot()), customerLabel, productLabel, content, result)
  {
    var customerId := NameOptions(db.customers)[customerLabel];
    var productId: Option<int> := None;
    if productLabel != NoProduct {
      productId := Some(MaintenanceProductOptions(db.products)[productLabel]);
    }
    var inserted := db.InsertMaintenance(customerId, productId, Text.NoneIfEmpty(content), Text.NoneIfEmpty(result));
    match inserted
    case Failure(e) =>
      reply := Crashed(e);
    case Success(id) =>
      reply := Created(id);
  }

  /** On a well-formed database the maintenance page's labels name an
      existing customer and, unless "—" was chosen, an existing product, so
      the record is added. */
  lemma MaintenanceSubmittedCreates(t: Tables, customerLabel: string, productLabel: string, content: string, result: string)
    requires WellFormed(t)
    requires customerLabel in NameOptions(t.customers)
    requires productLabel == NoProduct || productLabel in MaintenanceProductOptions(t.products)
    ensures MaintenanceSubmitted(t, customerLabel, productLabel, content, result).1 == Created(|t.maintenance| + 1)
  {
    NameOptionsExist(t.customers, customerLabel);
    if productLabel != NoProduct {
      MaintenanceOptionsExist(t.products, productLabel);
    }
  }

  /** Every customer name offered on a well-formed table names an existing
      customer id. */
  lemma NameOptionsExist(customers: seq<Customer>, choice: string)
    requires CustomersOk(customers)
    requires choice in NameOptions(customers)
    ensures 1 <= NameOptions(customers)[choice] <= |customers|
  {
    var c :| 0 <= c < |customers| && customers[c].name == choice && customers[c].id == NameOptions(customers)[choice];
  }

  /** Every product offered on the maintenance page of a well-formed table
      names an existing product id. */
  lemma MaintenanceOptionsExist(products: seq<Product>, choice: string)
    requires ProductsOk(products)
    requires choice in MaintenanceProductOptions(products)
    ensures 1 <= MaintenanceProductOptions(products)[choice] <= |products|
  {
    var i :| 0 <= i < |products| && ProductName(products[i]) == choice
             && products[i].id == MaintenanceProductOptions(products)[choice];
  }

  /** The stock-in and sale pages keep the inventory invariant (the
      quantity box never goes below 1). */
  lemma SubmissionsKeepConsistent(t: Tables, productLabel: string, customerLabel: string, quantity: int,
                                  price: real, note: string, now: Clock)
    requires WellFormed(t) && Consistent(t) && quantity >= 1
    ensures productLabel in ProductOptions(t.products) ==>
      Consistent(StockInSubmitted(t, productLabel, quantity, price, note).0)
    ensures customerLabel in CustomerOptions(t.customers) && productLabel in ProductOptions(SaleCandidates(t.products)) ==>
      Consistent(SaleSubmitted(t, customerLabel, productLabel, quantity, price, now).0)
  {
    if productLabel in ProductOptions(t.products) {
      ReceiveStockKeepsConsistent(t, ProductOptions(t.products)[productLabel], quantity, price, Text.NoneIfEmpty(note));
    }
    if customerLabel in CustomerOptions(t.customers) && productLabel in ProductOptions(SaleCandidates(t.products)) {
      PlaceSaleKeepsConsistent(t, CustomerOptions(t.customers)[customerLabel],
                               ProductOptions(SaleCandidates(t.products))[productLabel], quantity, price, OrderNo(now));
    }
  }
}
