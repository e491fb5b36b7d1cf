/**
The two 16-bit identifier counters of the gateway: Topics::getNextTopicId (MQTTSNGWTopic.cpp) and
Client::getNextPacketId (MQTTSNGWClient.cpp). Both run through 1..65534 and start again.
*/
module IdCycle {
  const CYCLE := 65534

  // The k-th identifier handed out; 0 before the first.
  function IdOf(k: nat): (id: nat)
    ensures id <= CYCLE && (k > 0 ==> id > 0)
  {
    if k == 0 then 0 else (k - 1) % CYCLE + 1
  }

  // ++n == 0xffff ? n += 2 : n, in 16 bits
  function NextTopicId(n: nat): nat {
    var m := (n + 1) % 65536;
    if m == 65535 then (m + 2) % 65536 else m
  }

  function NextPacketId(n: nat): nat {
    var m := (n + 1) % 65536;
    if m == 65535 then 1 else m
  }

  // Both counters step through the same cycle.
  lemma CounterSteps(k: nat)
    ensures NextTopicId(IdOf(k)) == IdOf(k + 1) == NextPacketId(IdOf(k))
  {
    if k > 0 {
      var q, r := (k - 1) / CYCLE, (k - 1) % CYCLE;
      assert k == q * CYCLE + (r + 1);
      if r + 1 == CYCLE {
        assert k == (q + 1) * CYCLE;
        assert k % CYCLE == 0;
      } else {
        assert k % CYCLE == r + 1;
      }
    }
  }

  // Two allocations get the same identifier exactly when a whole number of cycles lies between.
  lemma SameId(a: nat, b: nat)
    requires 0 < a <= b
    ensures IdOf(a) == IdOf(b) <==> (b - a) % CYCLE == 0
  {
    var x, y := a - 1, b - 1;
    var qx, rx, qy, ry := x / CYCLE, x % CYCLE, y / CYCLE, y % CYCLE;
    assert b - a == (qy - qx) * CYCLE + (ry - rx);
    if ry < rx {
      assert b - a == (qy - qx - 1) * CYCLE + (ry - rx + CYCLE);
      assert (b - a) % CYCLE == ry - rx + CYCLE;
    } else {
      assert (b - a) % CYCLE == ry - rx;
    }
  }
}
