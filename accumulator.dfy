// The page accumulator: the `while` loop that packs whole pages, first to
// last, into `summary` while their token count plus the reserved headroom
// stays within the budget. The tokenizer is the parameter `count`.

module PageAccumulator {
  import opened Text

  /** Tokens in the first `n` pages, each page counted by the tokenizer. */
  function TokensBefore(pages: seq<string>, count: string -> nat, n: nat): nat
    requires n <= |pages|
  {
    if n == 0 then 0 else TokensBefore(pages, count, n - 1) + count(pages[n - 1])
  }

  /** Having taken the first `k` pages, the loop goes on and takes page `k`:
      its guard holds (fewer tokens read than the limit) and the budget check
      passes (tokens read, plus the page's, plus the headroom, within the limit). */
  predicate TakesNext(pages: seq<string>, count: string -> nat, tokenLimit: int, bufferTokens: int, k: nat)
    requires k < |pages|
  {
    var read := TokensBefore(pages, count, k);
    read < tokenLimit && read + count(pages[k]) + bufferTokens <= tokenLimit
  }

  /** The loop takes each of the first `n` pages in turn. */
  predicate TakesFirst(pages: seq<string>, count: string -> nat, tokenLimit: int, bufferTokens: int, n: nat)
  {
    n <= |pages| && forall k :: 0 <= k < n ==> TakesNext(pages, count, tokenLimit, bufferTokens, k)
  }

  /** The loop stops after exactly `n` pages: it takes the first `n` and not the next one. */
  predicate StopsAt(pages: seq<string>, count: string -> nat, tokenLimit: int, bufferTokens: int, n: nat)
  {
    && TakesFirst(pages, count, tokenLimit, bufferTokens, n)
    && (n < |pages| ==> !TakesNext(pages, count, tokenLimit, bufferTokens, n))
  }

  /** Packs pages into the summary until the budget or the pages run out.
      The result is the longest run of leading pages the loop can take, its
      token count, and the text of those pages, each stripped and ended by a
      newline. */
  method Accumulate(pages: seq<string>, count: string -> nat, tokenLimit: int, bufferTokens: int)
    returns (summary: string, tokensRead: nat, pagesProcessed: nat)
    ensures pagesProcessed <= |pages|
    ensures StopsAt(pages, count, tokenLimit, bufferTokens, pagesProcessed)
    ensures forall n: nat :: TakesFirst(pages, count, tokenLimit, bufferTokens, n) ==> n <= pagesProcessed
    ensures tokensRead == TokensBefore(pages, count, pagesProcessed)
    ensures pagesProcessed > 0 ==> tokensRead + bufferTokens <= tokenLimit
    ensures summary == Lines(pages[..pagesProcessed])
  {
    summary, tokensRead, pagesProcessed := "", 0, 0;
    while tokensRead < tokenLimit && pagesProcessed < |pages|
      invariant TakesFirst(pages, count, tokenLimit, bufferTokens, pagesProcessed)
      invariant tokensRead == TokensBefore(pages, count, pagesProcessed)
      invariant pagesProcessed > 0 ==> tokensRead + bufferTokens <= tokenLimit
      invariant summary == Lines(pages[..pagesProcessed])
      decreases |pages| - pagesProcessed
    {
      var pageText := pages[pagesProcessed];
      var pageTokens := count(pageText);
      if tokensRead + pageTokens + bufferTokens > tokenLimit {
        break;
      }
      summary := summary + Strip(pageText) + "\n";
      tokensRead := tokensRead + pageTokens;
      pagesProcessed := pagesProcessed + 1;
      assert pages[..pagesProcessed][..pagesProcessed - 1] == pages[..pagesProcessed - 1];
    }
  }

  /** Two pages lists that agree on their first `n` pages have the same token
      count for those pages. */
  lemma {:induction false} TokensBeforeAgree(pages: seq<string>, pages': seq<string>, count: string -> nat, n: nat)
    requires n <= |pages| && n <= |pages'|
    requires pages[..n] == pages'[..n]
    ensures TokensBefore(pages, count, n) == TokensBefore(pages', count, n)
  {
    if n > 0 {
      assert pages[n - 1] == pages[..n][n - 1] == pages'[n - 1];
      assert pages[..n - 1] == pages[..n][..n - 1];
      assert pages'[..n - 1] == pages'[..n][..n - 1];
      TokensBeforeAgree(pages, pages', count, n - 1);
    }
  }

  /** The loop never looks past the page it stops at: any pages list that
      begins with the same pages, up to and including that one, makes the
      loop stop at the same place. */
  lemma LaterPagesIgnored(pages: seq<string>, pages': seq<string>, count: string -> nat,
                          tokenLimit: int, bufferTokens: int, n: nat)
    requires StopsAt(pages, count, tokenLimit, bufferTokens, n)
    requires n < |pages| && n < |pages'| && pages[..n + 1] == pages'[..n + 1]
    ensures StopsAt(pages', count, tokenLimit, bufferTokens, n)
  {
    forall k | 0 <= k <= n
      ensures TokensBefore(pages, count, k) == TokensBefore(pages', count, k)
      ensures pages[k] == pages'[k]
    {
      assert pages[..k] == pages[..n + 1][..k];
      assert pages'[..k] == pages'[..n + 1][..k];
      TokensBeforeAgree(pages, pages', count, k);
      assert pages[k] == pages[..n + 1][k];
      assert pages'[k] == pages'[..n + 1][k];
    }
    forall k | 0 <= k <= n
      ensures TakesNext(pages, count, tokenLimit, bufferTokens, k) == TakesNext(pages', count, tokenLimit, bufferTokens, k)
    {
    }
  }

  /** The loop stops at one place only. */
  lemma StopsAtUnique(pages: seq<string>, count: string -> nat, tokenLimit: int, bufferTokens: int, n: nat, m: nat)
    requires StopsAt(pages, count, tokenLimit, bufferTokens, n)
    requires StopsAt(pages, count, tokenLimit, bufferTokens, m)
    ensures n == m
  {
  }

  /** With `0 <= bufferTokens <= tokenLimit`, the tokens of the pages taken
      plus the headroom never exceed the limit. */
  lemma BudgetKept(pages: seq<string>, count: string -> nat, tokenLimit: int, bufferTokens: int, n: nat)
    requires 0 <= bufferTokens <= tokenLimit
    requires TakesFirst(pages, count, tokenLimit, bufferTokens, n)
    ensures TokensBefore(pages, count, n) + bufferTokens <= tokenLimit
  {
    if n > 0 {
      assert TakesNext(pages, count, tokenLimit, bufferTokens, n - 1);
    }
  }

  /** A headroom larger than the limit leaves room for no page at all, so the
      summary stays empty. */
  lemma NoPageWhenHeadroomExceedsLimit(pages: seq<string>, count: string -> nat, tokenLimit: int, bufferTokens: int, n: nat)
    requires tokenLimit < bufferTokens
    requires TakesFirst(pages, count, tokenLimit, bufferTokens, n)
    ensures n == 0 && Lines(pages[..n]) == ""
  {
    assert n > 0 ==> TakesNext(pages, count, tokenLimit, bufferTokens, 0);
  }

  // Concrete token counts for the page texts used in the worked examples below.
  function ExampleCount(page: string): nat
  {
    if page == "p1" then 50 else if page == "p2" then 60 else if page == "p3" then 40
    else if page == "full" then 10 else if page == "short" then 5 else 0
  }

  /** Pages of 50, 60 and 40 tokens, a limit of 120 and 10 tokens of headroom:
      the first two pages are taken (0+50+10 = 60 and 50+60+10 = 120 fit) and
      the third is not (110+40+10 = 160 does not). */
  lemma ThreePageExample(n: nat)
    requires StopsAt(["p1", "p2", "p3"], ExampleCount, 120, 10, n)
    ensures n == 2
  {
    var pages := ["p1", "p2", "p3"];
    assert TokensBefore(pages, ExampleCount, 1) == 50;
    assert TokensBefore(pages, ExampleCount, 2) == 110;
    assert StopsAt(pages, ExampleCount, 120, 10, 2);
    StopsAtUnique(pages, ExampleCount, 120, 10, n, 2);
  }

  /** Two pages of 5 tokens each under a limit of 1000 with no headroom: both
      are taken and the loop ends because the pages run out. */
  lemma TwoSmallPagesExample(n: nat)
    requires StopsAt(["short", "short"], ExampleCount, 1000, 0, n)
    ensures n == 2
  {
    var pages := ["short", "short"];
    assert TokensBefore(pages, ExampleCount, 1) == 5;
    assert StopsAt(pages, ExampleCount, 1000, 0, 2);
    StopsAtUnique(pages, ExampleCount, 1000, 0, n, 2);
  }

  /** The guard "fewer tokens read than the limit" stops the loop by itself:
      after a 10-token page fills a limit of 10 with no headroom, a following
      empty page would pass the budget check (10+0+0 <= 10), yet it is not
      taken. */
  lemma TokenGuardStopsLoop(n: nat)
    requires StopsAt(["full", ""], ExampleCount, 10, 0, n)
    ensures n == 1
    ensures TokensBefore(["full", ""], ExampleCount, 1) + ExampleCount("") + 0 <= 10
  {
    var pages := ["full", ""];
    assert TokensBefore(pages, ExampleCount, 1) == 10;
    assert StopsAt(pages, ExampleCount, 10, 0, 1);
    StopsAtUnique(pages, ExampleCount, 10, 0, n, 1);
  }
}
