/** The request/reply exchanges of the Bitcoin P2P protocol that are followed,
    and the small vocabulary both matchers share. */
module Exchanges {
  import opened Basics

  datatype Exchange = Exchange(
    request: string,
    replies: seq<string>,
    multi: bool,      // a request stays open after its first reply
    optional: bool,   // going without a reply counts against nobody
    windowMs: nat     // after this a reply no longer counts
  )

  /** Whose request, of which exchange, travelling which way. Either end can open
      the same exchange, and then there are two keys. */
  datatype Key = Key(peer: nat, exchange: nat, inbound: bool)

  const SECOND := 1_000
  const MINUTE := 60 * SECOND

  const EXCHANGES: seq<Exchange> := [
    Exchange("version", ["verack"], false, false, 2 * MINUTE),
    Exchange("ping", ["pong"], false, false, 20 * MINUTE),
    Exchange("getaddr", ["addr", "addrv2"], true, false, 3 * MINUTE),
    Exchange("inv", ["getdata"], false, true, 30 * SECOND),
    Exchange("getdata", ["tx", "block", "merkleblock", "cmpctblock", "notfound"], true, false, 10 * MINUTE),
    Exchange("getheaders", ["headers"], false, false, 2 * MINUTE),
    Exchange("getblocks", ["inv"], false, false, 2 * MINUTE),
    Exchange("cmpctblock", ["getblocktxn"], false, true, 2 * MINUTE),
    Exchange("getblocktxn", ["blocktxn", "notfound"], false, false, 2 * MINUTE),
    Exchange("mempool", ["inv"], true, false, 2 * MINUTE),
    Exchange("getcfilters", ["cfilter"], true, false, 2 * MINUTE),
    Exchange("getcfheaders", ["cfheaders"], false, false, 2 * MINUTE),
    Exchange("getcfcheckpt", ["cfcheckpt"], false, false, 2 * MINUTE)
  ]

  /** The first exchange, from index `from` on, that `command` opens. */
  function OpensFrom(table: seq<Exchange>, command: string, from: nat): (index: Option<nat>)
    requires from <= |table|
    ensures index.Some? ==>
              && from <= index.value < |table|
              && table[index.value].request == command
              && forall i | from <= i < index.value :: table[i].request != command
    ensures index.None? ==> forall i | from <= i < |table| :: table[i].request != command
    decreases |table| - from
  {
    if from == |table| then None
    else if table[from].request == command then Some(from)
    else OpensFrom(table, command, from + 1)
  }

  function Opens(table: seq<Exchange>, command: string): Option<nat> {
    OpensFrom(table, command, 0)
  }

  /** Two facts the two matchers lean on. A request command names one exchange
      only, so looking it up finds every row of the table; and no exchange is
      both optional and multi-reply, so the three ways of judging silence --
      judged at once, judged by the sweep only, never judged -- cover the table
      without overlapping. */
  lemma TableIsUnambiguous(i: nat)
    requires i < |EXCHANGES|
    ensures Opens(EXCHANGES, EXCHANGES[i].request) == Some(i)
    ensures !(EXCHANGES[i].optional && EXCHANGES[i].multi)
  {
    var found := Opens(EXCHANGES, EXCHANGES[i].request).value;
    assert |EXCHANGES[found].request| == |EXCHANGES[i].request|;
  }
}
