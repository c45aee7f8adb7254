/** Reading one ledger's transactions page by page from a JSON-RPC server. */
module Pagination {
  import opened Base

  /** A transaction in the server's listing; what it holds beyond its ledger stays opaque. */
  datatype Listed<T> = Listed(ledger: uint64, content: T)

  /** A request names a start ledger only when it carries no cursor. */
  datatype Params = Params(startLedger: uint64, limit: int, cursor: string)

  function NewParams(startLedger: uint64, limit: int, cursor: string): (p: Params)
    ensures p.limit == limit && p.cursor == cursor
    ensures cursor == "" ==> p.startLedger == startLedger
    ensures cursor != "" ==> p.startLedger == 0
  {
    Params(if cursor == "" then startLedger else 0, limit, cursor)
  }

  /**
   The server: its transactions in ledger order, how many it puts on the page that answers
   the k-th request, what its cursors look like, and which requests fail. It may cut pages
   as it likes, and may answer with the empty cursor once nothing remains.
   */
  datatype Server<T> = Server(
    txs: seq<Listed<T>>,
    pageSize: (nat, nat, int) -> nat,
    cursorAt: nat -> string,
    positionOf: string -> nat,
    endsWithEmpty: nat -> bool,
    fails: nat -> bool)
  {
    /** Ledger order; pages of 1 to `limit` transactions while some remain; cursors that are honoured. */
    ghost predicate Honest(limit: int) {
      && (forall i, j :: 0 <= i <= j < |txs| ==> txs[i].ledger <= txs[j].ledger)
      && (forall k: nat, p: nat :: p < |txs| ==> 1 <= pageSize(k, p, limit) <= limit)
      && (forall p: nat :: p <= |txs| ==> cursorAt(p) != "" && positionOf(cursorAt(p)) == p)
    }

    /** The first position of a ledger at or after the given one. */
    function FirstFrom(ledger: uint64, p: nat): (q: nat)
      requires p <= |txs|
      ensures p <= q <= |txs|
      ensures forall i :: p <= i < q ==> txs[i].ledger < ledger
      ensures q < |txs| ==> txs[q].ledger >= ledger
      decreases |txs| - p
    {
      if p == |txs| || txs[p].ledger >= ledger then p else FirstFrom(ledger, p + 1)
    }

    /** Where the answer to a request begins. */
    function Position(params: Params): (p: nat)
      ensures params.cursor == "" ==> p == FirstFrom(params.startLedger, 0)
      ensures p <= |txs|
    {
      if params.cursor == "" then FirstFrom(params.startLedger, 0)
      else if positionOf(params.cursor) <= |txs| then positionOf(params.cursor) else |txs|
    }
  }

  function Least(a: nat, b: nat): nat { if a < b then a else b }

  /** One request: the next cursor and a page, or an error. */
  method GetPage<T>(server: Server<T>, k: nat, ledgerNum: uint64, limit: int, cursor: string)
    returns (ok: bool, next: string, page: seq<Listed<T>>)
    requires limit >= 1 && server.Honest(limit)
    ensures ok <==> !server.fails(k)
    ensures ok ==>
      var p := server.Position(NewParams(ledgerNum, limit, cursor));
      && p + |page| <= |server.txs| && page == server.txs[p..p + |page|] && |page| <= limit
      && (p < |server.txs| ==> page != [])
      && next == if p + |page| == |server.txs| && server.endsWithEmpty(k) then "" else server.cursorAt(p + |page|)
  {
    if server.fails(k) {
      return false, cursor, [];
    }
    var p := server.Position(NewParams(ledgerNum, limit, cursor));
    var remaining := |server.txs| - p;
    var size := if remaining == 0 then 0 else Least(server.pageSize(k, p, limit), remaining);
    page := server.txs[p..p + size];
    next := if p + size == |server.txs| && server.endsWithEmpty(k) then "" else server.cursorAt(p + size);
    return true, next, page;
  }

  /** The transactions of one ledger, in listing order. */
  function OfLedger<T>(txs: seq<Listed<T>>, ledger: uint64): seq<Listed<T>> {
    if txs == [] then []
    else
      var last := txs[|txs| - 1];
      OfLedger(txs[..|txs| - 1], ledger) + if last.ledger == ledger then [last] else []
  }

  /** Where the unbroken run of a ledger's transactions from `p` ends. */
  function RunEnd<T>(txs: seq<Listed<T>>, ledger: uint64, p: nat): (q: nat)
    requires p <= |txs|
    ensures p <= q <= |txs|
    ensures forall i :: p <= i < q ==> txs[i].ledger == ledger
    ensures q < |txs| ==> txs[q].ledger != ledger
    decreases |txs| - p
  {
    if p == |txs| || txs[p].ledger != ledger then p else RunEnd(txs, ledger, p + 1)
  }

  lemma {:induction false} RunEndsHere<T>(txs: seq<Listed<T>>, ledger: uint64, p: nat, q: nat)
    requires p <= q <= |txs| && forall i :: p <= i < q ==> txs[i].ledger == ledger
    requires q < |txs| ==> txs[q].ledger != ledger
    ensures RunEnd(txs, ledger, p) == q
    decreases q - p
  {
    if p < q {
      RunEndsHere(txs, ledger, p + 1, q);
    }
  }

  /** A listing that has `ledger` from `a` up to `b` and nowhere else holds its transactions there. */
  lemma {:induction false} OfLedgerIsTheRun<T>(txs: seq<Listed<T>>, ledger: uint64, a: nat, b: nat)
    requires a <= b <= |txs|
    requires forall i :: 0 <= i < |txs| ==> (txs[i].ledger == ledger <==> a <= i < b)
    ensures OfLedger(txs, ledger) == txs[a..b]
  {
    if txs != [] {
      var init := txs[..|txs| - 1];
      if b == |txs| && a < b {
        OfLedgerIsTheRun(init, ledger, a, b - 1);
        assert txs[a..b] == init[a..b - 1] + [txs[b - 1]];
      } else {
        OfLedgerIsTheRun(init, ledger, Least(a, |init|), Least(b, |init|));
        assert txs[a..b] == init[Least(a, |init|)..Least(b, |init|)];
      }
    }
  }

  /** In a listing in ledger order, a ledger's transactions are the run that starts at its first position. */
  lemma FromTheFirstPosition<T>(server: Server<T>, ledger: uint64)
    requires forall i, j :: 0 <= i <= j < |server.txs| ==> server.txs[i].ledger <= server.txs[j].ledger
    ensures var p := server.FirstFrom(ledger, 0);
      server.txs[p..RunEnd(server.txs, ledger, p)] == OfLedger(server.txs, ledger)
  {
    var p := server.FirstFrom(ledger, 0);
    OfLedgerIsTheRun(server.txs, ledger, p, RunEnd(server.txs, ledger, p));
  }

  /** Takes the page's transactions up to the first of another ledger. */
  method TakePage<T>(page: seq<Listed<T>>, ledgerNum: uint64, before: seq<Listed<T>>)
    returns (taken: seq<Listed<T>>, sawOther: bool)
    ensures taken == before + page[..RunEnd(page, ledgerNum, 0)]
    ensures sawOther <==> RunEnd(page, ledgerNum, 0) < |page|
  {
    taken, sawOther := before, false;
    for i := 0 to |page|
      invariant !sawOther && taken == before + page[..i] && forall j :: 0 <= j < i ==> page[j].ledger == ledgerNum
    {
      if page[i].ledger != ledgerNum {
        RunEndsHere(page, ledgerNum, 0, i);
        sawOther := true;
        return;
      }
      taken := taken + [page[i]];
    }
    RunEndsHere(page, ledgerNum, 0, |page|);
  }

  lemma CursorsAreHonoured<T>(server: Server<T>, ledgerNum: uint64, limit: int)
    requires server.Honest(limit)
    ensures forall p: nat :: p <= |server.txs| ==>
      server.cursorAt(p) != "" && server.Position(NewParams(ledgerNum, limit, server.cursorAt(p))) == p
    ensures server.Position(NewParams(ledgerNum, limit, "")) == server.FirstFrom(ledgerNum, 0)
  {
  }

  lemma PartsJoin<T>(txs: seq<T>, a: nat, b: nat, n: nat, k: nat)
    requires a <= b && b + n <= |txs| && k <= n
    ensures txs[a..b] + txs[b..b + n][..k] == txs[a..b + k]
  {
    assert txs[b..b + n][..k] == txs[b..b + k];
  }

  lemma PageJoins<T>(txs: seq<T>, start: nat, pos: nat, page: seq<T>, taken: nat)
    requires start <= pos && pos + |page| <= |txs| && page == txs[pos..pos + |page|] && taken <= |page|
    ensures txs[start..pos] + page[..taken] == txs[start..pos + taken]
  {
    PartsJoin(txs, start, pos, |page|, taken);
  }

  lemma PageEndsRun<T>(txs: seq<Listed<T>>, ledger: uint64, start: nat, pos: nat, size: nat, taken: nat)
    requires start <= pos && pos + size <= |txs| && taken <= size
    requires forall i :: start <= i < pos + taken ==> txs[i].ledger == ledger
    requires taken < size ==> txs[pos + taken].ledger != ledger
    ensures taken < size || pos + taken == |txs| ==> RunEnd(txs, ledger, start) == pos + taken
  {
    if taken < size || pos + taken == |txs| {
      RunEndsHere(txs, ledger, start, pos + taken);
    }
  }

  lemma PageRun<T>(txs: seq<Listed<T>>, ledger: uint64, start: nat, pos: nat, page: seq<Listed<T>>)
    requires start <= pos && pos + |page| <= |txs| && page == txs[pos..pos + |page|]
    requires forall i :: start <= i < pos ==> txs[i].ledger == ledger
    ensures var end := pos + RunEnd(page, ledger, 0);
      && (forall i :: start <= i < end ==> txs[i].ledger == ledger)
      && (end < pos + |page| ==> txs[end].ledger != ledger)
  {
    var taken := RunEnd(page, ledger, 0);
    forall i | start <= i < pos + taken ensures txs[i].ledger == ledger {
      if i >= pos { assert txs[i] == page[i - pos]; }
    }
    if taken < |page| {
      assert txs[pos + taken] == page[taken];
    }
  }

  /**
   All transactions of a ledger: pages until one is empty, reaches another ledger, or comes
   with the empty cursor. Whatever the page sizes, it ends, and unless a request fails it
   returns exactly the run of that ledger from where the first request begins; started
   without a cursor, that is exactly the ledger's transactions, each once and in order.
   */
  method GetTransactions<T>(server: Server<T>, ledgerNum: uint64, limit: int, firstCursor: string)
    returns (r: Option<seq<Listed<T>>>)
    requires limit >= 1 && server.Honest(limit)
    ensures (forall k :: !server.fails(k)) ==> r.Some?
    ensures r.Some? ==>
      var p := server.Position(NewParams(ledgerNum, limit, firstCursor));
      r.value == server.txs[p..RunEnd(server.txs, ledgerNum, p)]
    ensures r.Some? && firstCursor == "" ==> r.value == OfLedger(server.txs, ledgerNum)
  {
    ghost var start := server.Position(NewParams(ledgerNum, limit, firstCursor));
    ghost var pos := start;
    FromTheFirstPosition(server, ledgerNum);
    CursorsAreHonoured(server, ledgerNum, limit);
    assert server.txs[start..start] == [];
    hide *;
    var transactions: seq<Listed<T>> := [];
    var lastCursor, k := firstCursor, 0;
    while true
      invariant start <= pos <= |server.txs| && server.Position(NewParams(ledgerNum, limit, lastCursor)) == pos
      invariant transactions == server.txs[start..pos]
      invariant forall i :: start <= i < pos ==> server.txs[i].ledger == ledgerNum
      decreases |server.txs| - pos
    {
      var ok, done;
      ok, done, lastCursor, transactions, pos :=
        NextPage(server, k, ledgerNum, limit, lastCursor, transactions, start, pos);
      if !ok {
        return None;
      }
      if done {
        return Some(transactions);
      }
      k := k + 1;
    }
  }

  /** One turn of that loop. */
  method NextPage<T>(server: Server<T>, k: nat, ledgerNum: uint64, limit: int, lastCursor: string,
                     before: seq<Listed<T>>, ghost start: nat, ghost pos: nat)
    returns (ok: bool, done: bool, cursor: string, transactions: seq<Listed<T>>, ghost next: nat)
    requires limit >= 1 && server.Honest(limit)
    requires start <= pos == server.Position(NewParams(ledgerNum, limit, lastCursor))
    requires before == server.txs[start..pos]
    requires forall i :: start <= i < pos ==> server.txs[i].ledger == ledgerNum
    ensures ok <==> !server.fails(k)
    ensures ok ==> next <= |server.txs| && pos <= next && transactions == server.txs[start..next]
    ensures ok && done ==> RunEnd(server.txs, ledgerNum, start) == next
    ensures ok && !done ==> pos < next && server.Position(NewParams(ledgerNum, limit, cursor)) == next
    ensures ok && !done ==> forall i :: start <= i < next ==> server.txs[i].ledger == ledgerNum
  {
    CursorsAreHonoured(server, ledgerNum, limit);
    hide *;
    done, transactions, next := true, before, pos;
    var page;
    ok, cursor, page := GetPage(server, k, ledgerNum, limit, lastCursor);
    if !ok {
      return;
    }
    var allTransactionsFetched := |page| == 0 || cursor == "";
    var sawOther;
    transactions, sawOther := TakePage(page, ledgerNum, before);
    ghost var taken := RunEnd(page, ledgerNum, 0);
    PageJoins(server.txs, start, pos, page, taken);
    PageRun(server.txs, ledgerNum, start, pos, page);
    PageEndsRun(server.txs, ledgerNum, start, pos, |page|, taken);
    next := pos + taken;
    done := allTransactionsFetched || sawOther;
  }
}
