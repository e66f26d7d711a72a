/**
 * The technique pager of the actor view and the numeric selection of the
 * menus: five techniques a page, `total_pages = ceil(n / 5)`, the page
 * number moved by the tokens `''`, `'p'` and `'q'` read after each page, and
 * a typed number accepted only inside the listed range.
 */
module Paging {
  import opened Wrappers
  import opened Text

  /** `page_size` */
  const PageSize: nat := 5

  /** `math.ceil(n / page_size)`: the fewest pages that hold `n` techniques. */
  function TotalPages(n: nat): (r: nat)
    ensures r * PageSize >= n
    ensures r > 0 ==> (r - 1) * PageSize < n
    ensures n > 0 <==> r > 0
  {
    (n + PageSize - 1) / PageSize
  }

  /** `start_index = (current_page - 1) * page_size` */
  function PageStart(page: nat): nat
    requires page >= 1
  {
    (page - 1) * PageSize
  }

  /** `xs[lo:hi]` for non-negative bounds: both are clamped to the length. */
  function Slice<T>(xs: seq<T>, lo: nat, hi: nat): (r: seq<T>)
    ensures |r| == if lo < hi && lo < |xs| then (if hi < |xs| then hi else |xs|) - lo else 0
    ensures forall k :: 0 <= k < |r| ==> lo + k < |xs| && r[k] == xs[lo + k]
  {
    var a := if lo < |xs| then lo else |xs|;
    var b := if hi < |xs| then hi else |xs|;
    if a <= b then xs[a..b] else []
  }

  /** `techniques[start_index:end_index]`, the techniques shown on page `page`. */
  function Page<T>(xs: seq<T>, page: nat): (r: seq<T>)
    requires page >= 1
    ensures |r| <= PageSize
    ensures forall k :: 0 <= k < |r| ==> PageStart(page) + k < |xs| && r[k] == xs[PageStart(page) + k]
    ensures page <= TotalPages(|xs|) ==> |r| > 0
  {
    Slice(xs, PageStart(page), PageStart(page) + PageSize)
  }

  /** Pages 1 to `count`, one after the other. */
  function Pages<T>(xs: seq<T>, count: nat): seq<T> {
    if count == 0 then [] else Pages(xs, count - 1) + Page(xs, count)
  }

  /** How many techniques the first `count` pages hold: `count * 5`, or all of them. */
  function Upto(count: nat, n: nat): nat {
    if count * PageSize < n then count * PageSize else n
  }

  /** Page `m + 1` is the slice between the first `m` pages and the first `m + 1`. */
  lemma PageIsSlice<T>(xs: seq<T>, m: nat)
    ensures Upto(m, |xs|) <= Upto(m + 1, |xs|) <= |xs|
    ensures Page(xs, m + 1) == xs[Upto(m, |xs|)..Upto(m + 1, |xs|)]
  {
    assert PageStart(m + 1) == m * PageSize;
    assert (m + 1) * PageSize == m * PageSize + PageSize;
  }

  /** The first `count` pages are the list's first `count * 5` techniques, or all of it. */
  lemma {:induction false} PagesPrefix<T>(xs: seq<T>, count: nat)
    ensures Pages(xs, count) == xs[..Upto(count, |xs|)]
  {
    if count > 0 {
      var m := count - 1;
      assert Pages(xs, count) == Pages(xs, m) + Page(xs, m + 1);
      PageIsSlice(xs, m);
      PagesPrefix(xs, m);
      var lo := Upto(m, |xs|);
      var hi := Upto(m + 1, |xs|);
      assert xs[..lo] + xs[lo..hi] == xs[..hi];
    }
  }

  /** Reading every page in turn shows the whole list once, in order: no gap, no overlap. */
  lemma PagesCoverAll<T>(xs: seq<T>)
    ensures Pages(xs, TotalPages(|xs|)) == xs
  {
    PagesPrefix(xs, TotalPages(|xs|));
  }

  // ---------------------------------------------------------------- navigation

  /** What one token does: nothing ("Invalid input."), a move to another page, or leaving the pager. */
  datatype Nav = Stay | MoveTo(page: nat) | Quit

  /** The branch of the pager loop taken for one (lower-cased) token. */
  function Navigate(page: nat, total: nat, token: string): (r: Nav)
    ensures 1 <= page <= total && r.MoveTo? ==> 1 <= r.page <= total
  {
    var nav := Lower(token);
    if page == total then
      if nav == "" || nav == "q" then Quit
      else if nav == "p" && page > 1 then MoveTo(page - 1)
      else Stay
    else
      if nav == "" && page < total then MoveTo(page + 1)
      else if nav == "p" && page > 1 then MoveTo(page - 1)
      else if nav == "q" then Quit
      else Stay
  }

  /**
   * The four outcomes of a token, each as an if-and-only-if: Enter moves
   * forward off the last page and leaves on it, 'p' moves back from any page
   * but the first, 'q' always leaves, and anything else changes nothing.
   */
  lemma NavigateCases(page: nat, total: nat, token: string)
    requires 1 <= page <= total
    ensures Navigate(page, total, token) == MoveTo(page + 1) <==> Lower(token) == "" && page < total
    ensures Navigate(page, total, token) == MoveTo(page - 1) <==> Lower(token) == "p" && page > 1
    ensures Navigate(page, total, token).Quit? <==> Lower(token) == "q" || (Lower(token) == "" && page == total)
    ensures Navigate(page, total, token).Stay? <==>
              Lower(token) !in {"", "q"} && !(Lower(token) == "p" && page > 1)
  {
  }

  /** The token is lower-cased before it is compared: 'P' and 'Q' act as 'p' and 'q'. */
  lemma NavigateIgnoresCase(page: nat, total: nat, token: string)
    ensures Navigate(page, total, Lower(token)) == Navigate(page, total, token)
  {
    LowerIdempotent(token);
  }

  /**
   * The pages shown from `page` on, reading one token after each page; the
   * pager stops at 'q' (or Enter on the last page) or when the input ends.
   */
  function Trace(page: nat, total: nat, tokens: seq<string>): (shown: seq<nat>)
    ensures |shown| >= 1 && shown[0] == page
    ensures |shown| <= |tokens| + 1
    decreases |tokens|
  {
    if tokens == [] then [page]
    else
      match Navigate(page, total, tokens[0])
      case Quit => [page]
      case Stay => [page] + Trace(page, total, tokens[1..])
      case MoveTo(p) => [page] + Trace(p, total, tokens[1..])
  }

  /** Every page the pager shows is a page of the list: `1 <= current_page <= total_pages` throughout. */
  lemma {:induction false} TraceInRange(page: nat, total: nat, tokens: seq<string>)
    requires 1 <= page <= total
    ensures forall k :: 0 <= k < |Trace(page, total, tokens)| ==> 1 <= Trace(page, total, tokens)[k] <= total
    decreases |tokens|
  {
    if tokens != [] {
      match Navigate(page, total, tokens[0])
      case Quit =>
      case Stay => TraceInRange(page, total, tokens[1..]);
      case MoveTo(p) => TraceInRange(p, total, tokens[1..]);
    }
  }

  /** Consecutive pages shown differ by at most one: the pager never jumps. */
  lemma {:induction false} TraceSteps(page: nat, total: nat, tokens: seq<string>)
    ensures forall k :: 0 <= k < |Trace(page, total, tokens)| - 1 ==>
              Trace(page, total, tokens)[k + 1] <= Trace(page, total, tokens)[k] + 1
              && Trace(page, total, tokens)[k] <= Trace(page, total, tokens)[k + 1] + 1
    decreases |tokens|
  {
    if tokens != [] {
      var t := Trace(page, total, tokens);
      match Navigate(page, total, tokens[0])
      case Quit =>
      case Stay =>
        TraceSteps(page, total, tokens[1..]);
        assert forall k :: 1 <= k < |t| ==> t[k] == Trace(page, total, tokens[1..])[k - 1];
      case MoveTo(p) =>
        TraceSteps(p, total, tokens[1..]);
        assert forall k :: 1 <= k < |t| ==> t[k] == Trace(p, total, tokens[1..])[k - 1];
    }
  }

  /**
   * The pager loop of `main`, over the tokens typed at its prompts; it is
   * entered only when the actor has techniques (`if not techniques:
   * continue`), and shows the pages `Trace` lists.
   */
  method Pager(n: nat, tokens: seq<string>) returns (shown: seq<nat>)
    ensures n == 0 ==> shown == []
    ensures n > 0 ==> shown == Trace(1, TotalPages(n), tokens)
  {
    shown := [];
    if n == 0 {
      return;
    }
    var total := TotalPages(n);
    var currentPage := 1;
    var i := 0;
    var done := false;
    while !done
      invariant 0 <= i <= |tokens|
      invariant !done ==> shown + Trace(currentPage, total, tokens[i..]) == Trace(1, total, tokens)
      invariant done ==> shown == Trace(1, total, tokens)
      decreases |tokens| - i, if done then 0 else 1
    {
      shown := shown + [currentPage];
      if i == |tokens| {
        done := true;
      } else {
        var nav := Navigate(currentPage, total, tokens[i]);
        assert tokens[i..][1..] == tokens[i + 1..];
        i := i + 1;
        match nav
        case Quit =>
          done := true;
        case Stay =>
        case MoveTo(p) =>
          currentPage := p;
      }
    }
  }

  // ---------------------------------------------------------------- selection

  /**
   * `int(...) - 1` followed by the range test: the number typed (`None` when
   * `int()` refuses the text) picks an entry only when it is between 1 and
   * the length of the list.
   */
  function Select<T>(list: seq<T>, typed: Option<int>): (r: Option<T>)
    ensures r.Some? <==> typed.Some? && 1 <= typed.value <= |list|
    ensures r.Some? ==> r.value == list[typed.value - 1]
  {
    match typed
    case None => None
    case Some(n) =>
      var choice := n - 1;
      if choice < 0 || choice >= |list| then None else Some(list[choice])
  }

  /** The number `k` selects `x` exactly when `x` is entry `k` of the list, counting from 1. */
  lemma SelectIs<T>(list: seq<T>, k: nat, x: T)
    ensures Select(list, Some(k)) == Some(x) <==> 1 <= k <= |list| && list[k - 1] == x
  {
  }
}
