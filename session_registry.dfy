/**
 * The registry of the stock service's web sockets (websockets/WebSocketSessionRegistry.java): which
 * stock each open session is subscribed to, so that price updates are fetched only for stocks some
 * session is watching.
 */
module SessionRegistry {

  /** The sessions of `m` among `sessions` that are subscribed to `stock`. */
  ghost function Holders(m: map<string, string>, sessions: set<string>, stock: string): set<string> {
    set s | s in sessions && s in m && m[s] == stock
  }

  /** One more session counts towards the stock it is subscribed to, and towards no other. */
  lemma HoldersGrow(m: map<string, string>, done: set<string>, s: string, stock: string)
    requires s in m && s !in done
    ensures |Holders(m, done + {s}, stock)| == |Holders(m, done, stock)| + if m[s] == stock then 1 else 0
  {
    if m[s] == stock {
      assert Holders(m, done + {s}, stock) == Holders(m, done, stock) + {s};
    } else {
      assert Holders(m, done + {s}, stock) == Holders(m, done, stock);
    }
  }

  class WebSocketSessionRegistry {
    var sessionsWithStock: map<string, string>

    constructor ()
      ensures sessionsWithStock == map[]
    {
      sessionsWithStock := map[];
    }

    /** `put(sessionId, stock)`: subscribes the session to `stock`, replacing its earlier stock. */
    method Put(sessionId: string, stock: string)
      modifies this
      ensures sessionsWithStock == old(sessionsWithStock)[sessionId := stock]
    {
      sessionsWithStock := sessionsWithStock[sessionId := stock];
    }

    /** `remove(sessionId)`: forgets the session; an unknown session changes nothing. */
    method Remove(sessionId: string)
      modifies this
      ensures sessionsWithStock == old(sessionsWithStock) - {sessionId}
    {
      sessionsWithStock := sessionsWithStock - {sessionId};
    }

    /**
     * `getStocksWithSubscribers`: the values of the map, in the map's own order. Each stock appears
     * once per session subscribed to it, so one entry per session and duplicates where sessions
     * share a stock.
     */
    method GetStocksWithSubscribers() returns (stocks: seq<string>)
      ensures |stocks| == |sessionsWithStock|
      ensures forall stock :: multiset(stocks)[stock] == |Holders(sessionsWithStock, sessionsWithStock.Keys, stock)|
    {
      stocks := [];
      var rest := sessionsWithStock.Keys;
      ghost var done: set<string> := {};
      while rest != {}
        invariant rest + done == sessionsWithStock.Keys && rest !! done
        invariant |stocks| == |done|
        invariant forall stock :: multiset(stocks)[stock] == |Holders(sessionsWithStock, done, stock)|
        decreases |rest|
      {
        var s :| s in rest;
        forall stock
          ensures multiset(stocks + [sessionsWithStock[s]])[stock] == |Holders(sessionsWithStock, done + {s}, stock)|
        {
          HoldersGrow(sessionsWithStock, done, s, stock);
        }
        stocks := stocks + [sessionsWithStock[s]];
        rest := rest - {s};
        done := done + {s};
      }
      assert done == sessionsWithStock.Keys;
    }
  }

  /**
   * Two sessions subscribed to "abc" and "def"; once the first is removed, only "def" is left,
   * for one session.
   */
  lemma PutPutRemove()
    ensures var m := map[]["123" := "abc"]["456" := "def"];
            && |Holders(m, m.Keys, "abc")| == 1 && |Holders(m, m.Keys, "def")| == 1
            && m - {"123"} == map["456" := "def"]
            && |Holders(m - {"123"}, (m - {"123"}).Keys, "def")| == 1
            && Holders(m - {"123"}, (m - {"123"}).Keys, "abc") == {}
  {
    var m := map[]["123" := "abc"]["456" := "def"];
    assert Holders(m, m.Keys, "abc") == {"123"};
    assert Holders(m, m.Keys, "def") == {"456"};
    assert Holders(m - {"123"}, (m - {"123"}).Keys, "def") == {"456"};
  }
}
