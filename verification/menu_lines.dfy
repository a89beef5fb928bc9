/**
  The `menu_items` entries both booking pages receive with each row, and the
  arithmetic the pages do on them.
*/
module MenuLines {
  import opened Common

  /** Prices are whole minor units (paisa); the page's floating-point `toFixed(2)` is not modelled. */
  datatype MenuLine = MenuLine(id: nat, name: string, price: int, quantity: int, imageUrl: Option<string>)

  /**
    `price * quantity`, written as repeated addition so that the solver
    reasons about totals without nonlinear arithmetic; `TimesIsProduct`
    shows it is the product.
  */
  function Times(price: int, quantity: int): (r: int)
    ensures quantity == 0 ==> r == 0
    ensures price >= 0 && quantity >= 0 ==> r >= 0
    decreases if quantity < 0 then -quantity else quantity
  {
    if quantity == 0 then 0
    else if quantity > 0 then Times(price, quantity - 1) + price
    else Times(price, quantity + 1) - price
  }

  lemma {:induction false} TimesIsProduct(price: int, quantity: int)
    ensures Times(price, quantity) == price * quantity
    decreases if quantity < 0 then -quantity else quantity
  {
    if quantity > 0 {
      TimesIsProduct(price, quantity - 1);
      assert price * (quantity - 1) + price == price * quantity;
    } else if quantity < 0 {
      TimesIsProduct(price, quantity + 1);
      assert price * (quantity + 1) - price == price * quantity;
    }
  }

  /** Quantities of one price add up: `p*a + p*b == p*(a+b)`. */
  lemma TimesAdds(price: int, a: int, b: int)
    ensures Times(price, a + b) == Times(price, a) + Times(price, b)
  {
    assert Times(price, a + b) == price * (a + b) by {
      TimesIsProduct(price, a + b);
    }
    assert Times(price, a) == price * a by {
      TimesIsProduct(price, a);
    }
    assert Times(price, b) == price * b by {
      TimesIsProduct(price, b);
    }
    Distributes(price, a, b);
  }

  lemma Distributes(p: int, a: int, b: int)
    ensures p * (a + b) == p * a + p * b
  {
  }

  /** `mi.price * mi.quantity` */
  function LineTotal(mi: MenuLine): int {
    Times(mi.price, mi.quantity)
  }

  /** `menu_items.reduce((sum, mi) => sum + mi.price * mi.quantity, 0)` */
  function Total(items: seq<MenuLine>): int
    decreases |items|
  {
    if items == [] then 0 else Total(items[..|items| - 1]) + LineTotal(items[|items| - 1])
  }

  /** The total of two lists one after the other is the sum of their totals. */
  lemma {:induction false} TotalAppend(a: seq<MenuLine>, b: seq<MenuLine>)
    ensures Total(a + b) == Total(a) + Total(b)
    decreases |b|
  {
    if b != [] {
      var init := b[..|b| - 1];
      assert (a + b)[..|a + b| - 1] == a + init;
      assert (a + b)[|a + b| - 1] == b[|b| - 1];
      TotalAppend(a, init);
    } else {
      assert a + b == a;
    }
  }

  /** `url || defaultImage`: an absent or empty URL falls back to the default. */
  function ImageOr(url: Option<string>, fallback: string): string {
    if url.Some? && url.value != "" then url.value else fallback
  }
}
