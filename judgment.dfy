/** The per-URL stock judgment (`judge` in check-stock.js).

    The browser is replaced by a snapshot of what it would answer: how the
    navigation ends, and what `isVisible()` says (or whether it throws) for
    each selector. The bounded race of `waitFor` calls that precedes the
    checks never changes the answer (each wait swallows its own failure and
    the race's value is discarded), so it does not appear here. */
module Judgment {

  /** A Playwright selector string. */
  type Selector = string

  /** The three results `judge` can return. */
  datatype Label = OutOfStock | InStock | FetchFailed

  /** The exact text of each result as it appears in the report. */
  function Text(l: Label): string
  {
    match l
    case OutOfStock => "在庫なし"
    case InStock => "\U{2B50}\U{FE0F}\U{FE0F}在庫あり\U{2B50}\U{FE0F}"
    case FetchFailed => "取得失敗"
  }

  /** Why diagnostics were captured. */
  datatype Tag = HttpError | Unknown | Exception

  /** The tag as it is written into artifact file names. */
  function TagName(t: Tag): string
  {
    match t
    case HttpError => "http_error"
    case Unknown => "unknown"
    case Exception => "exception"
  }

  /** What one `isVisible()` call does: answers true, answers false, or throws. */
  datatype Probe = Visible | Hidden | Raises

  /** How `page.goto` ends: with no response, with a response whose `ok()`
      is given, or by throwing (a navigation error or timeout). */
  datatype Navigation = NoResponse | Response(ok: bool) | NavigationRaises

  /** A page as the judgment observes it. */
  datatype Page = Page(nav: Navigation, visibility: Selector -> Probe)

  /** The signals the judgment looks for: out-of-stock selectors in priority
      order, and the one add-to-cart selector. */
  datatype Signals = Signals(outOfStock: seq<Selector>, cart: Selector)

  /** The signals check-stock.js is configured with. */
  const Configured: Signals :=
    Signals(["text=在庫がありません", "text=在庫なし"], "button:has-text(\"買い物かごに入れる\")")

  /** The outcome of judging one URL: the result returned, the tags of the
      diagnostic captures made (in order), and the selectors whose
      visibility was asked (in order). */
  datatype Verdict = Verdict(result: Label, captured: seq<Tag>, probed: seq<Selector>)

  /** Every selector the resolver may ask about, in the order it asks. */
  function Probes(sig: Signals): seq<Selector>
  {
    sig.outOfStock + [sig.cart]
  }

  function Last(s: seq<Selector>): Selector
    requires s != []
  {
    s[|s| - 1]
  }

  /** The priority resolver: the out-of-stock selectors in order, the first
      visible one deciding; then the cart button; otherwise inconclusive.
      A probe that throws ends the judgment as an exception.

      The contract characterises the result completely: the selectors asked
      are a non-empty prefix of `oos + [cart]` whose every element but the
      last was hidden, and the last answer decides result and capture. */
  function Resolve(oos: seq<Selector>, cart: Selector, visibility: Selector -> Probe): (v: Verdict)
    ensures 0 < |v.probed| <= |oos| + 1
    ensures v.probed == (oos + [cart])[..|v.probed|]
    ensures forall j :: 0 <= j < |v.probed| - 1 ==> visibility(v.probed[j]) == Hidden
    ensures visibility(Last(v.probed)) == Visible ==>
              v.captured == [] && v.result == (if |v.probed| <= |oos| then OutOfStock else InStock)
    ensures visibility(Last(v.probed)) == Raises ==>
              v.captured == [Exception] && v.result == FetchFailed
    ensures visibility(Last(v.probed)) == Hidden ==>
              |v.probed| == |oos| + 1 && v.captured == [Unknown] && v.result == FetchFailed
  {
    if oos == [] then
      match visibility(cart)
      case Visible => Verdict(InStock, [], [cart])
      case Hidden => Verdict(FetchFailed, [Unknown], [cart])
      case Raises => Verdict(FetchFailed, [Exception], [cart])
    else
      match visibility(oos[0])
      case Visible => Verdict(OutOfStock, [], [oos[0]])
      case Raises => Verdict(FetchFailed, [Exception], [oos[0]])
      case Hidden =>
        var rest := Resolve(oos[1..], cart, visibility);
        assert oos + [cart] == [oos[0]] + (oos[1..] + [cart]);
        rest.(probed := [oos[0]] + rest.probed)
  }

  /** `judge(page, url)`: the navigation gate, then the resolver. A
      transport failure short-circuits before any selector is consulted;
      a diagnostic capture happens exactly on the failure paths, once. */
  function Judge(sig: Signals, page: Page): (v: Verdict)
    ensures page.nav != Response(true) ==> v.result == FetchFailed && v.probed == []
    ensures page.nav.NoResponse? || page.nav == Response(false) ==> v.captured == [HttpError]
    ensures page.nav.NavigationRaises? ==> v.captured == [Exception]
    ensures |v.captured| == (if v.result == FetchFailed then 1 else 0)
  {
    match page.nav
    case NavigationRaises => Verdict(FetchFailed, [Exception], [])
    case NoResponse => Verdict(FetchFailed, [HttpError], [])
    case Response(ok) =>
      if !ok then Verdict(FetchFailed, [HttpError], [])
      else
        var v := Resolve(sig.outOfStock, sig.cart, page.visibility);
        assert v.probed != [];
        v
  }

  /** Precedence: a visible out-of-stock selector decides the result as
      out of stock, whatever the cart button shows, as long as no earlier
      probe throws; the cart button is then never consulted. */
  lemma OutOfStockWins(sig: Signals, page: Page, i: nat)
    requires page.nav == Response(true)
    requires i < |sig.outOfStock| && page.visibility(sig.outOfStock[i]) == Visible
    requires forall j :: 0 <= j < i ==> page.visibility(sig.outOfStock[j]) != Raises
    ensures Judge(sig, page).result == OutOfStock
    ensures Judge(sig, page).captured == []
    ensures |Judge(sig, page).probed| <= i + 1
  {
    var v := Judge(sig, page);
    var n := |v.probed|;
    assert v.probed == (Probes(sig))[..n];
    assert forall j :: 0 <= j < n && j < |sig.outOfStock| ==> v.probed[j] == sig.outOfStock[j];
    if n > i + 1 {
      assert false;
    }
    assert Last(v.probed) == sig.outOfStock[n - 1];
  }

  /** In stock is reported exactly when navigation succeeded, every
      out-of-stock selector is hidden, and the cart button is visible. */
  lemma InStockIff(sig: Signals, page: Page)
    ensures Judge(sig, page).result == InStock <==>
              page.nav == Response(true)
              && (forall j :: 0 <= j < |sig.outOfStock| ==> page.visibility(sig.outOfStock[j]) == Hidden)
              && page.visibility(sig.cart) == Visible
  {
    var v := Judge(sig, page);
    if page.nav == Response(true) {
      var n := |v.probed|;
      assert v.probed == (Probes(sig))[..n];
      if n <= |sig.outOfStock| {
        assert Last(v.probed) == sig.outOfStock[n - 1];
      }
      if v.result == InStock {
        forall j | 0 <= j < |sig.outOfStock|
          ensures page.visibility(sig.outOfStock[j]) == Hidden
        {
          assert v.probed[j] == sig.outOfStock[j];
        }
      }
    }
  }

  /** The inconclusive case: the `unknown` capture happens exactly when
      navigation succeeded and every probe, cart button included, said hidden. */
  lemma UnknownIff(sig: Signals, page: Page)
    ensures Judge(sig, page).captured == [Unknown] <==>
              page.nav == Response(true)
              && forall j :: 0 <= j < |Probes(sig)| ==> page.visibility(Probes(sig)[j]) == Hidden
  {
    var v := Judge(sig, page);
    if page.nav == Response(true) {
      var n := |v.probed|;
      var ps := Probes(sig);
      assert v.probed == ps[..n];
      assert Last(v.probed) == ps[n - 1];
      if v.captured == [Unknown] {
        forall j | 0 <= j < |ps|
          ensures page.visibility(ps[j]) == Hidden
        {
          assert v.probed[j] == ps[j];
        }
      }
    }
  }

  /** The `exception` capture happens exactly when navigation throws, or it
      succeeds and the first probe that does not answer "hidden" throws. */
  lemma ExceptionIff(sig: Signals, page: Page)
    ensures Judge(sig, page).captured == [Exception] <==>
              page.nav.NavigationRaises?
              || (page.nav == Response(true)
                  && exists k :: 0 <= k < |Probes(sig)| && page.visibility(Probes(sig)[k]) == Raises
                                 && forall j :: 0 <= j < k ==> page.visibility(Probes(sig)[j]) == Hidden)
  {
    var v := Judge(sig, page);
    if page.nav == Response(true) {
      var n := |v.probed|;
      var ps := Probes(sig);
      assert v.probed == ps[..n];
      if v.captured == [Exception] {
        assert page.visibility(ps[n - 1]) == Raises;
        assert forall j :: 0 <= j < n - 1 ==> page.visibility(ps[j]) == Hidden by {
          forall j | 0 <= j < n - 1 ensures page.visibility(ps[j]) == Hidden {
            assert v.probed[j] == ps[j];
          }
        }
      }
      if exists k :: 0 <= k < |ps| && page.visibility(ps[k]) == Raises
                     && forall j :: 0 <= j < k ==> page.visibility(ps[j]) == Hidden {
        var k :| 0 <= k < |ps| && page.visibility(ps[k]) == Raises
                 && forall j :: 0 <= j < k ==> page.visibility(ps[j]) == Hidden;
        assert Last(v.probed) == ps[n - 1];
        if n - 1 > k {
          assert false;
        }
      }
    }
  }

  /** With the configured selectors, a page showing `在庫がありません` is out of
      stock whatever else it shows, and only that one selector is asked. */
  lemma ConfiguredOutOfStock(page: Page)
    requires page.nav == Response(true)
    requires page.visibility(Configured.outOfStock[0]) == Visible
    ensures Judge(Configured, page).result == OutOfStock
    ensures Judge(Configured, page).probed == [Configured.outOfStock[0]]
  {
    OutOfStockWins(Configured, page, 0);
    var v := Judge(Configured, page);
    assert v.probed == Probes(Configured)[..|v.probed|];
  }
}
