/**
 * The shared `orders` table. Three programs each declare an `OrderRepository`
 * over this one table: order intake inserts and lists rows, the kitchen
 * registration confirms them, and the modification service reads them and
 * applies time-gated edits. The table is modelled once, as a map from id to
 * row plus the AUTOINCREMENT counter, and each of those repository methods is
 * a member of the class below. Every update is atomic by construction.
 */
module Orders {

  import opened Wrappers

  /** Seconds after confirmation during which an order may still be edited. */
  const EDIT_WINDOW_SECONDS := 5 * 60

  /** The closed value sets shared by order intake and order modification. */
  const VALID_PRODUCTS: seq<string> := ["pepperoni", "hawaiana"]
  const VALID_SIZES: seq<string> := ["personal", "mediana", "grande"]
  const VALID_PAYMENTS: seq<string> := ["efectivo", "tarjeta", "transferencia"]

  /** A row of the `orders` table; `createdAt` and `confirmedAt` are seconds. */
  datatype Order = Order(
    id: int,
    clientName: string,
    product: string,
    size: string,
    qty: int,
    paymentMethod: string,
    state: string,
    createdAt: int,
    confirmedAt: Option<int>)

  /** States in which the store refuses every modification. */
  predicate IsLocked(state: string) {
    state == "cancelled" || state == "cooking" || state == "done"
  }

  /** The fields a modification may overwrite; `None` means "leave as is". */
  datatype ChangeSet = ChangeSet(
    clientName: Option<string>,
    product: Option<string>,
    size: Option<string>,
    qty: Option<int>,
    paymentMethod: Option<string>)

  predicate IsEmpty(c: ChangeSet) {
    c.clientName.None? && c.product.None? && c.size.None? && c.qty.None? && c.paymentMethod.None?
  }

  /** The `qty > 0` column constraint, as it applies to a change set. */
  predicate RespectsQtyCheck(c: ChangeSet) {
    c.qty.Some? ==> c.qty.value > 0
  }

  function Overwrite<T>(current: T, change: Option<T>): T {
    if change.Some? then change.value else current
  }

  /** The row after the dynamic `UPDATE ... SET` built from the present fields. */
  function Apply(o: Order, c: ChangeSet): (r: Order)
    ensures r.id == o.id && r.state == o.state
    ensures r.createdAt == o.createdAt && r.confirmedAt == o.confirmedAt
  {
    o.(clientName := Overwrite(o.clientName, c.clientName),
       product := Overwrite(o.product, c.product),
       size := Overwrite(o.size, c.size),
       qty := Overwrite(o.qty, c.qty),
       paymentMethod := Overwrite(o.paymentMethod, c.paymentMethod))
  }

  /**
   * The store's business rule for one row at time `now`: it has a
   * confirmation time, at most `EDIT_WINDOW_SECONDS` have passed since (so
   * exactly 300 s is still allowed), its state is not locked, and the change
   * set is not empty. The state is NOT required to be "confirmed".
   */
  predicate Accepts(o: Order, c: ChangeSet, now: int) {
    && o.confirmedAt.Some?
    && now - o.confirmedAt.value <= EDIT_WINDOW_SECONDS
    && !IsLocked(o.state)
    && !IsEmpty(c)
  }

  predicate Admits(rows: map<int, Order>, id: int, c: ChangeSet, now: int) {
    id in rows && Accepts(rows[id], c, now)
  }

  /** The row after `confirm_order`: confirmed now, whatever it was before. */
  function Confirm(o: Order, now: int): (r: Order)
    ensures r.state == "confirmed" && r.confirmedAt == Some(now)
    ensures r.(state := o.state, confirmedAt := o.confirmedAt) == o
  {
    o.(state := "confirmed", confirmedAt := Some(now))
  }

  predicate KeyedById(rows: map<int, Order>) {
    forall id | id in rows :: rows[id].id == id
  }

  /**
   * The rows whose ids lie in `[1, hi)`, newest (largest id) first: the
   * `ORDER BY id DESC` scan.
   */
  function IdsBelow(rows: map<int, Order>, hi: int): seq<Order>
    decreases hi
  {
    if hi <= 1 then []
    else if hi - 1 in rows then [rows[hi - 1]] + IdsBelow(rows, hi - 1)
    else IdsBelow(rows, hi - 1)
  }

  /** The scan yields rows of the table, with ids in `[1, hi)`, strictly descending. */
  lemma {:induction false} IdsBelowSorted(rows: map<int, Order>, hi: int)
    requires KeyedById(rows)
    ensures forall i | 0 <= i < |IdsBelow(rows, hi)| ::
      var o := IdsBelow(rows, hi)[i]; 1 <= o.id < hi && o.id in rows && rows[o.id] == o
    ensures forall i, j | 0 <= i < j < |IdsBelow(rows, hi)| :: IdsBelow(rows, hi)[i].id > IdsBelow(rows, hi)[j].id
    decreases hi
  {
    if hi > 1 {
      IdsBelowSorted(rows, hi - 1);
      var rest := IdsBelow(rows, hi - 1);
      if hi - 1 in rows {
        var r := IdsBelow(rows, hi);
        assert r == [rows[hi - 1]] + rest;
        assert forall i | 1 <= i < |r| :: r[i] == rest[i - 1];
      }
    }
  }

  /** The scan misses no row whose id lies in `[1, hi)`. */
  lemma {:induction false} IdsBelowComplete(rows: map<int, Order>, hi: int)
    ensures forall id | id in rows && 1 <= id < hi :: rows[id] in IdsBelow(rows, hi)
    decreases hi
  {
    if hi > 1 {
      IdsBelowComplete(rows, hi - 1);
    }
  }

  /**
   * In a list of rows sorted by descending id, every row left out of its first
   * `k` entries has a smaller id than each of them.
   */
  lemma DescendingPrefix(rows: map<int, Order>, all: seq<Order>, k: nat)
    requires KeyedById(rows)
    requires forall i, j | 0 <= i < j < |all| :: all[i].id > all[j].id
    requires forall id | id in rows :: rows[id] in all
    requires k <= |all|
    ensures forall id | id in rows && rows[id] !in all[..k] :: forall i | 0 <= i < k :: id < all[i].id
  {
    forall id | id in rows && rows[id] !in all[..k]
      ensures forall i | 0 <= i < k :: id < all[i].id
    {
      assert forall i | 0 <= i < k :: all[..k][i] == all[i];
      var p :| k <= p < |all| && all[p] == rows[id];
    }
  }

  class OrderRepository {
    var rows: map<int, Order>
    /** The AUTOINCREMENT counter: the id the next inserted row receives. */
    var nextId: int

    ghost predicate Valid()
      reads this
    {
      && nextId >= 1
      && KeyedById(rows)
      && forall id | id in rows :: 1 <= id < nextId && rows[id].qty > 0
    }

    constructor ()
      ensures Valid() && rows == map[] && nextId == 1
    {
      rows := map[];
      nextId := 1;
    }

    /**
     * `create_order`: inserts a draft row, not yet confirmed, under a fresh
     * id larger than every id in the table. A quantity that is not positive
     * violates the column check: nothing is inserted.
     */
    method CreateOrder(clientName: string, product: string, size: string, qty: int,
                       paymentMethod: string, now: int) returns (r: Option<int>)
      requires Valid()
      modifies this
      ensures Valid()
      ensures qty <= 0 ==> r.None? && rows == old(rows) && nextId == old(nextId)
      ensures qty > 0 ==> r == Some(old(nextId)) && nextId == old(nextId) + 1
      ensures qty > 0 ==> rows == old(rows)[old(nextId) :=
        Order(old(nextId), clientName, product, size, qty, paymentMethod, "draft", now, None)]
      ensures r.Some? ==> r.value !in old(rows) && forall id | id in old(rows) :: id < r.value
    {
      if qty <= 0 {
        return None;
      }
      var id := nextId;
      rows := rows[id := Order(id, clientName, product, size, qty, paymentMethod, "draft", now, None)];
      nextId := nextId + 1;
      r := Some(id);
    }

    /** `list_orders`: every row, newest first. */
    function ListOrders(): (r: seq<Order>)
      requires Valid()
      reads this
      ensures forall i, j | 0 <= i < j < |r| :: r[i].id > r[j].id
      ensures forall i | 0 <= i < |r| :: r[i].id in rows && rows[r[i].id] == r[i]
      ensures forall id | id in rows :: rows[id] in r
    {
      IdsBelowSorted(rows, nextId);
      IdsBelowComplete(rows, nextId);
      IdsBelow(rows, nextId)
    }

    /**
     * `list_recent`: the `limit` newest rows, newest first. As in SQLite, a
     * negative `LIMIT` means no limit.
     */
    function ListRecent(limit: int): (r: seq<Order>)
      requires Valid()
      reads this
      ensures forall i, j | 0 <= i < j < |r| :: r[i].id > r[j].id
      ensures forall i | 0 <= i < |r| :: r[i].id in rows && rows[r[i].id] == r[i]
      ensures limit >= 0 ==> |r| <= limit
      ensures limit < 0 || |r| < limit ==> forall id | id in rows :: rows[id] in r
      ensures forall id | id in rows && rows[id] !in r :: forall i | 0 <= i < |r| :: id < r[i].id
    {
      var all := ListOrders();
      var n := if limit < 0 || limit >= |all| then |all| else limit;
      DescendingPrefix(rows, all, n);
      assert all[..|all|] == all;
      all[..n]
    }

    /** `fetch_one`: the row with that id, if any. */
    function FetchOne(id: int): (r: Option<Order>)
      requires Valid()
      reads this
      ensures r.Some? <==> id in rows
      ensures r.Some? ==> r.value == rows[id] && r.value.id == id && r.value.qty > 0
    {
      if id in rows then Some(rows[id]) else None
    }

    /**
     * `confirm_order`: `UPDATE ... WHERE id=? AND state!='cancelled'`. Any
     * other state, including confirmed, cooking and done, becomes "confirmed"
     * with a new confirmation time.
     */
    method ConfirmOrder(id: int, now: int) returns (ok: bool)
      requires Valid()
      modifies this
      ensures Valid()
      ensures ok <==> id in old(rows) && old(rows)[id].state != "cancelled"
      ensures ok ==> rows == old(rows)[id := Confirm(old(rows)[id], now)]
      ensures !ok ==> rows == old(rows)
      ensures nextId == old(nextId)
    {
      if id in rows && rows[id].state != "cancelled" {
        rows := rows[id := Confirm(rows[id], now)];
        ok := true;
      } else {
        ok := false;
      }
    }

    /**
     * `apply_modification_atomic`: one exclusive transaction that either
     * rejects, leaving the table untouched, or overwrites exactly the fields
     * present in `c` on the row `id`.
     */
    method ApplyModificationAtomic(id: int, c: ChangeSet, now: int) returns (applied: bool)
      requires Valid() && RespectsQtyCheck(c)
      modifies this
      ensures Valid()
      ensures applied <==> Admits(old(rows), id, c, now)
      ensures applied ==> rows == old(rows)[id := Apply(old(rows)[id], c)]
      ensures !applied ==> rows == old(rows)
      ensures nextId == old(nextId)
    {
      if id !in rows {
        return false;
      }
      var row := rows[id];
      if row.confirmedAt.None? {
        return false;
      }
      if now - row.confirmedAt.value > EDIT_WINDOW_SECONDS {
        return false;
      }
      if IsLocked(row.state) {
        return false;
      }
      if IsEmpty(c) {
        return false;
      }
      rows := rows[id := Apply(row, c)];
      applied := true;
    }
  }

  /** Each field of the updated row is the change if present, and the old value otherwise. */
  lemma ApplyWritesOnlyPresentFields(o: Order, c: ChangeSet)
    ensures Apply(o, c).clientName == (if c.clientName.Some? then c.clientName.value else o.clientName)
    ensures Apply(o, c).product == (if c.product.Some? then c.product.value else o.product)
    ensures Apply(o, c).size == (if c.size.Some? then c.size.value else o.size)
    ensures Apply(o, c).qty == (if c.qty.Some? then c.qty.value else o.qty)
    ensures Apply(o, c).paymentMethod == (if c.paymentMethod.Some? then c.paymentMethod.value else o.paymentMethod)
  {
  }

  /**
   * The window is closed on the right: exactly `EDIT_WINDOW_SECONDS` after
   * confirmation an edit is still accepted, one second later never.
   */
  lemma WindowBoundary(o: Order, c: ChangeSet, t: int)
    requires o.confirmedAt == Some(t) && !IsLocked(o.state) && !IsEmpty(c)
    ensures Accepts(o, c, t + EDIT_WINDOW_SECONDS)
    ensures forall later | later > t + EDIT_WINDOW_SECONDS :: !Accepts(o, c, later)
  {
  }

  /**
   * Re-applying the same change set within the window succeeds again and
   * leaves the row as the first application did.
   */
  lemma ReapplyIsIdempotent(o: Order, c: ChangeSet, now: int, later: int)
    requires Accepts(o, c, now)
    requires later - o.confirmedAt.value <= EDIT_WINDOW_SECONDS
    ensures Accepts(Apply(o, c), c, later)
    ensures Apply(Apply(o, c), c) == Apply(o, c)
  {
  }

  /**
   * Confirming again re-opens the window, even for an order that was cooking
   * or done: `confirm_order` only refuses cancelled orders.
   */
  lemma ReconfirmReopensWindow(o: Order, c: ChangeSet, now: int)
    requires o.state != "cancelled" && !IsEmpty(c)
    ensures Accepts(Confirm(o, now), c, now)
  {
  }
}
