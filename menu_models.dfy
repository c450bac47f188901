/**
  The rows of the `menu` app that the access graph sees: Category and
  Kitchen (a unique name and the set of restaurants they are attached to)
  and the stock logic of Product.
*/
module MenuModels {

  import opened OrganizationModels

  type CatalogId = int

  /**
    A Category or a Kitchen row: its unique name and its many-to-many
    `restaurant` set, as the serializers and views use it.
  */
  datatype Catalog = Catalog(name: string, restaurant: set<RestaurantId>)

  /** The UNIQUE constraint on `Category.name` and on `Kitchen.name`. */
  ghost predicate UniqueCatalogNames(t: map<CatalogId, Catalog>) {
    forall a, b :: a in t && b in t && a != b ==> t[a].name != t[b].name
  }

  /** The two stock fields of a Product row. */
  datatype Stock = Stock(stop: bool, count: int)

  /**
    `count` is a PositiveIntegerField.  On PostgreSQL, the database the
    project is configured for, the column carries `CHECK ("count" >= 0)`:
    a row that breaks it is refused with an IntegrityError.
  */
  predicate CountInBounds(p: Stock) {
    p.count >= 0
  }

  /**
    What `Product.save` does to the stock fields before writing the row:
    an exhausted product (count < 1) is put on the stop list, and nothing
    ever takes it off.
  */
  function Saved(p: Stock): (r: Stock)
    ensures r.count == p.count
    ensures r.count < 1 ==> r.stop
    ensures p.stop ==> r.stop
    ensures p.count >= 1 ==> r.stop == p.stop
  {
    if p.count < 1 then p.(stop := true) else p
  }

  /**
    What `Product.buy_stop` does to the fields of the instance: only a
    product already on the stop list loses one unit (and is saved); any
    other product is left as it is.
  */
  function BoughtWhileStopped(p: Stock): (r: Stock)
    ensures !p.stop ==> r == p
    ensures p.stop ==> r.count == p.count - 1 && r.stop
  {
    if p.stop then Saved(p.(count := p.count - 1)) else p
  }

  /** `buy_stop` with the decrement allowed only while a unit is left. */
  function BoughtWhileStoppedWithinBound(p: Stock): (r: Stock)
    ensures CountInBounds(p) ==> CountInBounds(r)
    ensures p.stop && p.count >= 1 ==> r == BoughtWhileStopped(p)
    ensures !(p.stop && p.count >= 1) ==> r == p
  {
    if p.stop && p.count >= 1 then Saved(p.(count := p.count - 1)) else p
  }

  /** Saving twice is saving once. */
  lemma SaveIdempotent(p: Stock)
    ensures Saved(Saved(p)) == Saved(p)
  {
  }

  /**
    Starting from a stored row the database accepts, `buy_stop` as written
    produces a row the database refuses exactly when the product is stopped
    and has no unit left.
  */
  lemma BuyStopRefusedIffExhausted(p: Stock)
    requires CountInBounds(p)
    ensures !CountInBounds(BoughtWhileStopped(p)) <==> p.stop && p.count == 0
  {
  }

  /**
    The input that shows it: a product saved with count 0 is stopped and
    accepted by the database, and `buy_stop` then asks it to store count -1,
    which raises an IntegrityError.
  */
  lemma BuyStopRaisesOnExhaustedProduct()
    ensures var p := Saved(Stock(false, 0)); CountInBounds(p) && p.stop
    ensures !CountInBounds(BoughtWhileStopped(Saved(Stock(false, 0))))
  {
  }

  /**
    A Product instance and its stored row.  `save` and `buy_stop` update the
    instance's `stop` and `count` in place and then write them to the row;
    the write fails, and leaves the row as it was, when the count is
    negative.  Name, description, price, category and kitchen are not part
    of the model.
  */
  class Product {
    var stop: bool
    var count: int
    /** The row as the database holds it. */
    var stored: Stock

    /** The instance's fields. */
    function Row(): Stock
      reads this
    {
      Stock(stop, count)
    }

    /** A product created with the defaults: `stop` false, `count` 1, and stored so. */
    constructor ()
      ensures Row() == Stock(false, 1) && stored == Row() && CountInBounds(stored)
    {
      stop := false;
      count := 1;
      stored := Stock(false, 1);
    }

    /**
      `Product.save`: set the stop flag when stock is exhausted, then write
      the row.  `written` is false when the database raises IntegrityError.
    */
    method Save() returns (written: bool)
      modifies this
      ensures Row() == Saved(old(Row()))
      ensures written <==> CountInBounds(Row())
      ensures written ==> stored == Row()
      ensures !written ==> stored == old(stored)
    {
      if count < 1 {
        stop := true;
      }
      if count >= 0 {
        stored := Row();
        written := true;
      } else {
        written := false;
      }
    }

    /**
      `Product.buy_stop`, as written.  `raised` is true when the save inside
      it raises IntegrityError; the stored row then keeps its old count.
    */
    method BuyStop() returns (raised: bool)
      modifies this
      ensures Row() == BoughtWhileStopped(old(Row()))
      ensures raised <==> old(stop) && !CountInBounds(Row())
      ensures old(stop) && !raised ==> stored == Row()
      ensures !old(stop) || raised ==> stored == old(stored)
      ensures CountInBounds(old(stored)) ==> CountInBounds(stored)
    {
      raised := false;
      if stop {
        count := count - 1;
        var written := Save();
        raised := !written;
      }
    }

    /** `buy_stop` corrected: it never asks the database to store a negative count. */
    method BuyStopWithinBound() returns (raised: bool)
      requires CountInBounds(Row())
      modifies this
      ensures Row() == BoughtWhileStoppedWithinBound(old(Row()))
      ensures !raised && CountInBounds(Row())
      ensures old(stop) && old(count) >= 1 ==> stored == Row()
      ensures !(old(stop) && old(count) >= 1) ==> stored == old(stored)
    {
      raised := false;
      if stop && count >= 1 {
        count := count - 1;
        var written := Save();
        raised := !written;
      }
    }
  }
}
