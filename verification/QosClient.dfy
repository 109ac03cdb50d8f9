/** The client methods that drive the outbox. Each is one step of the state machine; `log` is
    the history the machine keeps. Whether the transport took the whole packet is a parameter. */
module QosClient {
  import opened MqttKinds
  import opened Outbox
  import opened QosMachine
  import opened QosProgress

  class Client {
    const box: Box
    var connected: bool
    ghost var log: seq<Action>

    ghost predicate Valid()
      reads this, box
    {
      box.Valid()
    }

    ghost function Abs(): State
      reads this, box
    {
      State(box.items, box.next, connected, log)
    }

    constructor ()
      ensures Valid() && Abs() == INITIAL && fresh(box)
    {
      box := new Box();
      connected := false;
      log := [];
    }

    /** `mqtt_enqueue`. */
    method StoreMessage(qos: nat, id: nat, len: nat, now: int)
      requires Valid()
      modifies this, box
      ensures Valid() && Abs() == Store(old(Abs()), qos, id, len, now)
    {
      ghost var handle := box.next;
      var own := if qos > 0 then id else 0;
      StoreIs(Abs(), qos, id, len, now);
      var item := box.Enqueue(own, PUBLISH, qos, len, 0, now);
      log := log + [Stored(handle, own, qos)];
    }

    /** The end of a publish whose packet has gone out. */
    method MarkTransmitted(id: nat, now: int)
      requires Valid()
      modifies box
      ensures Valid() && Abs() == SetPendingOf(SetTickOf(old(Abs()), id, now), id, Transmitted)
    {
      var ticked := box.SetTick(id, now);
      var set' := box.SetPending(id, Transmitted);
    }

    /** `esp_mqtt_client_publish`. */
    method Publish(qos: nat, id: nat, len: nat, now: int, sent: int, whole: bool) returns (ok: bool)
      requires Valid()
      modifies this, box
      ensures Valid() && Abs() == Next(old(Abs()), Step.Publish(qos, id, len, now, sent, whole))
      ensures ok <==> old(connected) && whole
    {
      ghost var handle := box.next;
      if qos > 0 {
        StoreMessage(qos, id, len, now);
      }
      if !connected {
        return false;
      }
      log := log + [if qos > 0 then Wrote(handle, id, false, whole) else WroteUnstored(whole)];
      connected := whole;
      if !whole {
        return false;
      }
      if qos > 0 {
        MarkTransmitted(id, sent);
      }
      return true;
    }

    /** `esp_mqtt_client_enqueue`. */
    method Enqueue(qos: nat, store: bool, id: nat, len: nat, now: int)
      requires Valid()
      modifies this, box
      ensures Valid() && Abs() == Next(old(Abs()), Step.Enqueue(qos, store, id, len, now))
    {
      if qos > 0 || store {
        StoreMessage(qos, id, len, now);
      }
    }

    /** `mqtt_resend_queued`: the packet of item `i`, with the DUP flag set if it has been
        transmitted before. */
    method Resend(i: nat, whole: bool)
      requires Valid() && i < |box.items|
      modifies this
      ensures Valid() && connected == whole
      ensures var x := box.items[i]; log == old(log) + [Wrote(x.handle, x.id, x.qos > 0 && x.pending == Transmitted, whole)]
    {
      var item := box.items[i];
      var dup := item.qos > 0 && item.pending == Transmitted;
      log := log + [Wrote(item.handle, item.id, dup, whole)];
      connected := whole;
    }

    /** The first branch of the resend part of `esp_mqtt_task`. */
    method ResendQueued(whole: bool) returns (found: bool)
      requires Valid()
      modifies this, box
      ensures Valid() && Abs() == Next(old(Abs()), Step.ResendQueued(whole))
      ensures found <==> First(old(box.items), IsPending(Queued)) >= 0
    {
      var i := box.Dequeue(Queued);
      found := i >= 0;
      if found {
        var item := box.items[i];
        Resend(i, whole);
        if whole {
          if item.qos == 0 {
            HandleIsAt(box.items, box.next, i);
            var deleted := box.DeleteItem(item.handle);
            log := log + [SentOnce(item.handle)];
          }
          if item.qos > 0 {
            var set' := box.SetPending(item.id, Transmitted);
          }
        }
      }
    }

    /** The message that has waited longest for its acknowledgement, when nothing is queued. */
    method ResendTransmitted(now: int, timeout: int, whole: bool)
      requires Valid() && NoneQueued(box.items)
      modifies this, box
      ensures Valid() && box.items == old(box.items) && Abs() == Next(old(Abs()), Step.ResendTransmitted(now, timeout, whole))
    {
      var i := box.Dequeue(Transmitted);
      if i >= 0 && now - box.items[i].tick > timeout {
        Resend(i, whole);
      }
    }

    /** `mqtt_resend_pubrel`, when nothing is queued. */
    method ResendPubrel(now: int, timeout: int, whole: bool)
      requires Valid() && NoneQueued(box.items)
      modifies this, box
      ensures Valid() && Abs() == Next(old(Abs()), Step.ResendPubrel(now, timeout, whole))
    {
      var i := box.Dequeue(Acknowledged);
      if i >= 0 && now - box.items[i].tick > timeout {
        log := log + [WrotePubrel(box.items[i].id)];
        connected := whole;
      }
    }

    /** The resend part of one round of `esp_mqtt_task`: a queued message first; only when there is
        none, and when it is time, the first unacknowledged message and the first PUBREL. */
    method ResendRound(due: bool, now: int, timeout: int, first: bool, second: bool)
      requires Valid()
      modifies this, box
      ensures Valid()
      ensures !NoneQueued(old(box.items)) ==> Abs() == Next(old(Abs()), Step.ResendQueued(first))
      ensures NoneQueued(old(box.items)) && due ==>
                Abs() == Next(Next(old(Abs()), Step.ResendTransmitted(now, timeout, first)), Step.ResendPubrel(now, timeout, second))
      ensures NoneQueued(old(box.items)) && !due ==> Abs() == old(Abs())
    {
      var found := ResendQueued(first);
      if !found && due {
        ResendTransmitted(now, timeout, first);
        ResendPubrel(now, timeout, second);
      }
    }

    /** PUBACK or PUBCOMP: `remove_initiator_message`, then the PUBLISHED event. */
    method ReceiveAck(id: nat) returns (published: bool)
      requires Valid()
      modifies this, box
      ensures Valid() && Abs() == Next(old(Abs()), ReceivePuback(id)) && Abs() == Next(old(Abs()), ReceivePubcomp(id))
      ensures published <==> First(old(box.items), HasIdAndKind(id, PUBLISH)) >= 0
    {
      ghost var goal := DoAck(Abs(), id);
      ghost var i := First(box.items, HasIdAndKind(id, PUBLISH));
      ghost var items := box.items;
      published := box.Delete(id, PUBLISH);
      assert box.items == goal.items;
      if published {
        log := log + [Acked(items[i].handle)];
        log := log + [Published(id)];
      }
      assert log == goal.log;
    }

    /** PUBREC: the PUBREL is written whether or not the message is known. */
    method ReceivePubrec(id: nat)
      requires Valid()
      modifies this, box
      ensures Valid() && Abs() == Next(old(Abs()), Step.ReceivePubrec(id))
    {
      ghost var goal := DoPubrec(Abs(), id);
      ghost var i := First(box.items, HasId(id));
      ghost var items := box.items;
      var known := box.SetPending(id, Acknowledged);
      assert box.items == goal.items;
      if known {
        log := log + [Marked(items[i].handle)];
      }
      log := log + [WrotePubrel(id)];
      assert log == goal.log;
    }

    /** One round of `mqtt_delete_expired_messages`. */
    method DeleteOneExpired(now: int, timeout: int) returns (more: bool)
      requires Valid()
      modifies this, box
      ensures Valid() && more == (First(old(box.items), IsExpired(now, timeout)) >= 0)
      ensures !more ==> Abs() == old(Abs())
      ensures more ==> var i := First(old(box.items), IsExpired(now, timeout));
                       Abs() == Leave(old(Abs()), i, Expired(old(box.items)[i].handle))
    {
      ghost var i := First(box.items, IsExpired(now, timeout));
      ghost var items := box.items;
      var id := box.DeleteSingleExpired(now, timeout);
      more := id >= 0;
      if more {
        log := log + [Expired(items[i].handle)];
      }
    }

    /** `mqtt_delete_expired_messages`. */
    method DeleteExpired(now: int, timeout: int)
      requires Valid()
      modifies this, box
      ensures Valid() && Abs() == Next(old(Abs()), Expire(now, timeout))
    {
      ghost var goal := DoExpire(Abs(), now, timeout);
      var more := true;
      while more
        invariant Valid() && (if more then DoExpire(Abs(), now, timeout) else Abs()) == goal
        decreases more, |box.items|
      {
        more := DeleteOneExpired(now, timeout);
      }
    }

    /** The end of `esp_mqtt_task`. */
    method Stop()
      requires Valid()
      modifies this, box
      ensures Valid() && Abs() == Next(old(Abs()), Step.Stop) && box.items == [] && box.size == 0
    {
      StopEffect(Abs());
      ghost var dropped := box.DeleteAll();
      log := log + seq(|dropped|, k requires 0 <= k < |dropped| => Dropped(dropped[k]));
      connected := false;
    }
  }

  lemma {:induction false} HandleIsAt(items: seq<Item>, next: nat, i: nat)
    requires Ordered(items, next) && i < |items|
    ensures First(items, HasHandle(items[i].handle)) == i
  {
    assert HasHandle(items[i].handle)(items[i]);
  }

  lemma {:induction false} StoreIs(s: State, qos: nat, id: nat, len: nat, now: int)
    ensures Store(s, qos, id, len, now)
         == (var own := if qos > 0 then id else 0;
             State(s.items + [Item(s.next, own, PUBLISH, qos, now, len + 0, Queued)], s.next + 1, s.connected, s.log + [Stored(s.next, own, qos)]))
  {
  }
}
