/** The connection with its two rings as the code has them: receive requests linked in arrays,
    16-bit positions, and the loops that fill, post and poll. */
module MessageConnection {
  import opened Arith
  import R = ReceiveRing
  import S = SendRing

  const MESSAGE_SIZE := 4096
  const NULL := -1

  class Connection<T(0)> {
    const asked: nat      // the constructor's argument, which the field messageNR keeps 16 bits of
    const messageNR: nat
    const subNR: nat
    const sendPadding: nat
    const recvPadding: nat
    var curMessage: nat
    var curSend: nat
    var sendCounter: nat
    const recvSgl: array2<nat>    // the buffer that request i of batch k fills
    const recvNext: array2<int>   // the request linked behind it

    // The queue pair and the card.
    const pool: array<T>
    var posted: seq<nat>
    var placed: nat
    var completed: nat
    var polled: nat

    ghost var returned: nat
    ghost var arrivals: seq<T>
    ghost var gets: nat
    ghost var sends: nat

    ghost function Receiving(): R.Ring<T>
      reads this, pool
    {
      R.Ring(messageNR, curMessage, posted, placed, pool[..], returned, arrivals)
    }

    ghost function Sending(): S.State
      reads this
    {
      S.State(S.Check, gets, sends, completed, polled)
    }

    /** The chains of receive requests, one for each batch. */
    ghost predicate Linked()
      reads recvSgl, recvNext
    {
      && recvSgl.Length0 == recvNext.Length0 == R.BATCHES && recvSgl.Length1 == recvNext.Length1 == subNR
      && forall k, i :: 0 <= k < R.BATCHES && 0 <= i < subNR ==>
           recvSgl[k, i] == k * subNR + i && recvNext[k, i] == if i == subNR - 1 then NULL else i + 1
    }

    ghost predicate Shaped()
      reads this
    {
      && R.ValidNR(messageNR) && messageNR == S.MessageNR(asked) && subNR == R.SubNR(messageNR)
      && pool.Length == messageNR && curSend == gets % messageNR && sendCounter == S.Counter(sends)
    }

    /** After initRecv. */
    ghost predicate Valid()
      reads this, pool, recvSgl, recvNext
    {
      Shaped() && Linked() && R.WellFormed(Receiving())
    }

    constructor (asked: nat, sendPadding: nat, recvPadding: nat, pool: array<T>)
      requires asked % R.BATCHES == 0 && R.ValidNR(S.MessageNR(asked)) && pool.Length == S.MessageNR(asked)
      ensures messageNR == asked % 0x1_0000 && subNR == messageNR / 4
      ensures Shaped() && this.asked == asked && this.pool == pool && fresh(recvSgl) && fresh(recvNext)
      ensures this.sendPadding == sendPadding && this.recvPadding == recvPadding
      ensures recvSgl.Length0 == recvNext.Length0 == R.BATCHES && recvSgl.Length1 == recvNext.Length1 == subNR
      ensures curMessage == placed == returned == 0 && posted == [] && arrivals == [] && Sending() == S.INIT
    {
      var nr := asked % S.WRAP16;
      this.asked, this.messageNR, this.subNR := asked, nr, nr / R.BATCHES;
      this.sendPadding, this.recvPadding, this.pool := sendPadding, recvPadding, pool;
      curMessage, curSend, sendCounter := 0, 0, 0;
      recvSgl := new nat[R.BATCHES, nr / R.BATCHES];
      recvNext := new int[R.BATCHES, nr / R.BATCHES];
      posted, placed, completed, polled := [], 0, 0, 0;
      returned, arrivals, gets, sends := 0, [], 0, 0;
      DivMod(0, nr, 0);
    }

    /** `ibv_post_recv` of the chain that starts with request 0 of batch `k`. */
    method PostBatch(k: nat)
      requires Linked() && k < R.BATCHES && subNR > 0
      modifies this`posted
      ensures posted == old(posted) + R.Batch(k, subNR)
    {
      var i, n := 0, 0;
      while i != NULL
        invariant 0 <= n <= subNR && i == if n < subNR then n else NULL
        invariant posted == old(posted) + R.Batch(k, subNR)[..n]
        decreases subNR - n
      {
        posted := posted + [recvSgl[k, i]];
        i, n := recvNext[k, i], n + 1;
      }
      assert R.Batch(k, subNR)[..n] == R.Batch(k, subNR);
    }

    /** Fill and link the requests, then post the four chains. */
    method InitRecv()
      requires Shaped() && curMessage == placed == returned == 0 && posted == [] && arrivals == []
      requires recvSgl.Length0 == recvNext.Length0 == R.BATCHES && recvSgl.Length1 == recvNext.Length1 == subNR
      modifies this`posted, recvSgl, recvNext
      ensures Valid() && Receiving() == R.InitRing(messageNR, old(pool[..]))
      ensures posted == seq(messageNR, i => i)
    {
      R.InitHasInv(messageNR, pool[..]);
      LinkAll();
      PostBatch(0);
      PostBatch(1);
      PostBatch(2);
      PostBatch(3);
      assert [] + R.Batch(0, subNR) == R.Batch(0, subNR);
    }

    method LinkAll()
      requires recvSgl.Length0 == recvNext.Length0 == R.BATCHES && recvSgl.Length1 == recvNext.Length1 == subNR
      modifies recvSgl, recvNext
      ensures Linked()
    {
      var k := 0;
      while k < R.BATCHES
        invariant 0 <= k <= R.BATCHES
        invariant forall b, i :: 0 <= b < k && 0 <= i < subNR ==>
                    recvSgl[b, i] == b * subNR + i && recvNext[b, i] == if i == subNR - 1 then NULL else i + 1
      {
        var j := 0;
        while j < subNR
          invariant 0 <= j <= subNR
          invariant forall b, i :: 0 <= b < k && 0 <= i < subNR ==>
                      recvSgl[b, i] == b * subNR + i && recvNext[b, i] == if i == subNR - 1 then NULL else i + 1
          invariant forall i :: 0 <= i < j ==>
                      recvSgl[k, i] == k * subNR + i && recvNext[k, i] == if i == subNR - 1 then NULL else i + 1
        {
          recvSgl[k, j] := k * subNR + j;
          recvNext[k, j] := if j == subNR - 1 then NULL else j + 1;
          j := j + 1;
        }
        k := k + 1;
      }
    }

    /** The card receives `x`. */
    method Receive(x: T)
      requires Valid()
      modifies this`placed, this`arrivals, pool
      ensures Valid() && Receiving() == R.Arrive(old(Receiving()), x)
      ensures old(placed) < |posted| ==>
                pool[..] == old(pool[..])[posted[old(placed)] := x] && placed == old(placed) + 1 && arrivals == old(arrivals) + [x]
      ensures old(placed) >= |posted| ==> pool[..] == old(pool[..]) && placed == old(placed) && arrivals == old(arrivals)
    {
      if placed < |posted| {
        pool[posted[placed]] := x;
        placed := placed + 1;
        arrivals := arrivals + [x];
      }
    }

    /** The address is relative to the pool. */
    method GetMessage() returns (m: nat)
      requires Valid()
      modifies this`curMessage, this`posted, this`returned
      ensures Valid() && Receiving() == R.GetMessage(old(Receiving()))
      ensures m == old(curMessage) * 4096 + recvPadding && curMessage == (old(curMessage) + 1) % messageNR
    {
      m := curMessage * MESSAGE_SIZE + recvPadding;
      curMessage := (curMessage + 1) % messageNR;
      returned := returned + 1;
      R.Quarters(messageNR);
      if curMessage % subNR == 0 {
        var k := ((curMessage / subNR + R.WIDTH32 - 1) % R.WIDTH32 + R.BATCHES) % R.WIDTH32 % R.BATCHES;
        forall i: nat | i < subNR
          ensures R.Batch(k, subNR)[i] < messageNR
        {
          MultiplesApart(k, R.BATCHES, subNR);
        }
        PostBatch(k);
      }
    }

    /** The send pool begins behind as many buffers as were asked for. */
    method GetSendPool() returns (slot: nat)
      requires Valid()
      modifies this`curSend, this`gets
      ensures Valid() && Sending() == old(Sending()).(gets := old(gets) + 1)
      ensures slot == (asked + old(gets) % messageNR) * 4096 + sendPadding && gets == old(gets) + 1
    {
      slot := asked * MESSAGE_SIZE + curSend * MESSAGE_SIZE + sendPadding;
      NextMod(gets, messageNR);
      curSend := (curSend + 1) % messageNR;
      gets := gets + 1;
    }

    /** Poll until a completion is there; meanwhile the card goes on. */
    method PollWithCQ()
      requires completed <= sends && polled < S.Signals(sends) && polled <= S.Signals(completed)
      modifies this`completed, this`polled
      ensures polled == old(polled) + 1 <= S.Signals(completed) && old(completed) <= completed <= sends
      ensures old(polled) < S.Signals(old(completed)) ==> completed == old(completed)
    {
      var cqes := CompletionsWritten(completed);
      while cqes <= polled
        invariant old(completed) <= completed <= sends && cqes == S.Signals(completed)
        invariant old(polled) < S.Signals(old(completed)) ==> completed == old(completed)
        invariant polled == old(polled)
        decreases sends - completed
      {
        completed := completed + 1;
        cqes := CompletionsWritten(completed);
      }
      polled := polled + 1;
    }

    static function CompletionsWritten(c: nat): (r: nat)
      ensures r == S.Signals(c)
    {
      S.SignalsIs(c);
      (c + S.SIGNAL - 1) / S.SIGNAL
    }

    /** The wait at the head of sendRawMessage ends in every reachable state. */
    method PollIfDue(ghost ahead: nat)
      requires Valid() && S.Reachable(ahead, Sending())
      modifies this`completed, this`polled
      ensures Valid() && old(completed) <= completed <= sends
      ensures polled == old(polled) + if S.Polls(sends) then 1 else 0
      ensures if S.Polls(sends) then S.Signals(completed) > old(polled) else completed == old(completed)
    {
      S.FewUnretired(ahead, Sending());
      if sendCounter % S.SIGNAL == 0 && sendCounter > 0 {
        S.PollEnds(ahead, Sending());
        PollWithCQ();
      }
    }

    /** sendRawMessage: the whole call is a run of the protocol. Only a call that polls lets the card
        go on meanwhile. */
    method SendRawMessage(ghost ahead: nat) returns (signaled: bool)
      requires Valid() && S.Reachable(ahead, Sending()) && sends < gets
      modifies this`completed, this`polled, this`sendCounter, this`sends
      ensures Valid() && S.Reachable(ahead, Sending()) && gets == old(gets)
      ensures sends == old(sends) + 1 && signaled == (old(sends) % 32 == 0)
      ensures var polls := old(sends) % 32 == 0 && old(sends) % 0x1_0000_0000_0000_0000 > 0;
              polled == old(polled) + (if polls then 1 else 0) && old(completed) <= completed && (!polls ==> completed == old(completed))
    {
      ghost var s := Sending();
      S.WhenSignaled(sends);
      hide S.Signaled, S.Polls, S.Signals;
      PollIfDue(ahead);
      S.SendKeepsReachable(ahead, s, completed);
      signaled := sendCounter % S.SIGNAL == 0;
      S.CounterBits(s.sends);
      NextMod(sends, S.WRAP64);
      sendCounter := (sendCounter + 1) % S.WRAP64;
      sends := sends + 1;
    }
  }
}
