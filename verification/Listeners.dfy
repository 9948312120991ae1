/** The listener list of the daemon and the messages its triggers send. Calls are handled one
    at a time; each synchronous send returns before the next. */
module Listeners {

  type Listener = nat

  datatype Message = OnChanged | OnDeviceAdded | OnDeepExample | OnParams | OnBundles

  /** A message to the client object `to`, sent for its registration number `slot`. */
  datatype Delivery = Delivery(slot: nat, to: Listener, message: Message)

  datatype Call =
    | AddListener(listener: Listener)
    | RemoveListener(listener: Listener)
    | TriggerChange
    | TriggerDeviceAdded

  /** What one trigger sends to one registration, in order. */
  function Group(call: Call): seq<Message> {
    match call
    case TriggerChange => [OnChanged, OnParams, OnBundles]
    case TriggerDeviceAdded => [OnDeviceAdded, OnDeviceAdded, OnDeviceAdded, OnDeepExample, OnDeepExample]
    case _ => []
  }

  // ----- the log of a whole run

  function Addressed(slot: nat, to: Listener, group: seq<Message>): (r: seq<Delivery>)
    ensures |r| == |group|
  {
    seq(|group|, i requires 0 <= i < |group| => Delivery(slot, to, group[i]))
  }

  function SendAll(listeners: seq<Listener>, group: seq<Message>): seq<Delivery> {
    if listeners == [] then []
    else
      var n := |listeners| - 1;
      SendAll(listeners[..n], group) + Addressed(n, listeners[n], group)
  }

  function ListenersAfter(calls: seq<Call>): seq<Listener> {
    if calls == [] then []
    else
      var before, last := ListenersAfter(calls[..|calls| - 1]), calls[|calls| - 1];
      if last.AddListener? then before + [last.listener] else before
  }

  function LogOf(calls: seq<Call>): seq<Delivery> {
    if calls == [] then []
    else
      var init, last := calls[..|calls| - 1], calls[|calls| - 1];
      LogOf(init) + SendAll(ListenersAfter(init), Group(last))
  }

  // ----- the daemon

  class Daemon {
    var listeners: seq<Listener>
    var sent: seq<Delivery>
    ghost var history: seq<Call>

    ghost predicate Valid()
      reads this
    {
      listeners == ListenersAfter(history) && sent == LogOf(history)
    }

    constructor ()
      ensures Valid() && history == []
    {
      listeners, sent, history := [], [], [];
    }

    method Send(slot: nat, to: Listener, message: Message)
      modifies `sent
      ensures sent == old(sent) + [Delivery(slot, to, message)]
    {
      sent := sent + [Delivery(slot, to, message)];
    }

    method HandleCall(call: Call)
      requires Valid()
      modifies this
      ensures Valid() && history == old(history) + [call]
      ensures listeners == if call.AddListener? then old(listeners) + [call.listener] else old(listeners)
      ensures call.AddListener? || call.RemoveListener? ==> sent == old(sent)
      ensures call.TriggerChange? ==> sent == old(sent) + SendAll(listeners, [OnChanged, OnParams, OnBundles])
      ensures call.TriggerDeviceAdded? ==>
                sent == old(sent) + SendAll(listeners, [OnDeviceAdded, OnDeviceAdded, OnDeviceAdded,
                                                        OnDeepExample, OnDeepExample])
    {
      hide LogOf, ListenersAfter, SendAll;
      NextCall(history, call);
      match call {
        case AddListener(listener) => listeners := listeners + [listener];
        case RemoveListener(_) =>
        case TriggerChange => NotifyChange();
        case TriggerDeviceAdded => NotifyDeviceAdded();
      }
      history := history + [call];
    }

    method NotifyChange()
      modifies `sent
      ensures sent == old(sent) + SendAll(listeners, [OnChanged, OnParams, OnBundles])
    {
      var i := 0;
      while i < |listeners|
        invariant 0 <= i <= |listeners|
        invariant sent == old(sent) + SendAll(listeners[..i], [OnChanged, OnParams, OnBundles])
      {
        var to := listeners[i];
        Send(i, to, OnChanged);
        Send(i, to, OnParams);
        Send(i, to, OnBundles);
        NextListener(listeners, i, [OnChanged, OnParams, OnBundles]);
        i := i + 1;
      }
      assert listeners[..|listeners|] == listeners;
    }

    method NotifyDeviceAdded()
      modifies `sent
      ensures sent == old(sent) + SendAll(listeners, [OnDeviceAdded, OnDeviceAdded, OnDeviceAdded,
                                                      OnDeepExample, OnDeepExample])
    {
      ghost var group := [OnDeviceAdded, OnDeviceAdded, OnDeviceAdded, OnDeepExample, OnDeepExample];
      var i := 0;
      while i < |listeners|
        invariant 0 <= i <= |listeners|
        invariant sent == old(sent) + SendAll(listeners[..i], group)
      {
        var to := listeners[i];
        Send(i, to, OnDeviceAdded);
        Send(i, to, OnDeviceAdded);
        Send(i, to, OnDeviceAdded);
        Send(i, to, OnDeepExample);
        Send(i, to, OnDeepExample);
        NextListener(listeners, i, group);
        i := i + 1;
      }
      assert listeners[..|listeners|] == listeners;
    }
  }

  lemma NextCall(history: seq<Call>, call: Call)
    ensures LogOf(history + [call]) == LogOf(history) + SendAll(ListenersAfter(history), Group(call))
    ensures ListenersAfter(history + [call]) ==
            ListenersAfter(history) + (if call.AddListener? then [call.listener] else [])
    ensures Group(call) == [] ==> LogOf(history + [call]) == LogOf(history)
  {
    assert (history + [call])[..|history|] == history;
    if Group(call) == [] {
      NothingToSend(ListenersAfter(history));
    }
  }

  lemma {:induction false} NothingToSend(listeners: seq<Listener>)
    ensures SendAll(listeners, []) == []
  {
    if listeners == [] {
    } else {
      NothingToSend(listeners[..|listeners| - 1]);
    }
  }

  lemma NextListener(listeners: seq<Listener>, i: nat, group: seq<Message>)
    requires i < |listeners|
    ensures SendAll(listeners[..i + 1], group) == SendAll(listeners[..i], group) + Addressed(i, listeners[i], group)
  {
    assert listeners[..i + 1][..i] == listeners[..i];
  }

  // ----- what a registration receives

  function ReceivedBy(log: seq<Delivery>, slot: nat): seq<Message> {
    if log == [] then []
    else
      var last := log[|log| - 1];
      ReceivedBy(log[..|log| - 1], slot) + (if last.slot == slot then [last.message] else [])
  }

  /** The groups of a run of calls, one behind the other. */
  function Groups(calls: seq<Call>): seq<Message> {
    if calls == [] then [] else Groups(calls[..|calls| - 1]) + Group(calls[|calls| - 1])
  }

  lemma {:induction false} ReceivedByConcat(a: seq<Delivery>, b: seq<Delivery>, slot: nat)
    ensures ReceivedBy(a + b, slot) == ReceivedBy(a, slot) + ReceivedBy(b, slot)
  {
    if b == [] {
      assert a + b == a;
    } else {
      ReceivedByConcat(a, b[..|b| - 1], slot);
      assert (a + b)[..|a + b| - 1] == a + b[..|b| - 1];
    }
  }

  lemma {:induction false} ReceivedByAddressed(slot: nat, to: Listener, group: seq<Message>, other: nat)
    ensures ReceivedBy(Addressed(slot, to, group), other) == if other == slot then group else []
  {
    hide Addressed;
    if group == [] {
      assert Addressed(slot, to, group) == [];
    } else {
      var init := group[..|group| - 1];
      ReceivedByAddressed(slot, to, init, other);
      AddressedInit(slot, to, group);
      assert group == init + [group[|group| - 1]];
    }
  }

  lemma AddressedInit(slot: nat, to: Listener, group: seq<Message>)
    requires group != []
    ensures Addressed(slot, to, group)[..|group| - 1] == Addressed(slot, to, group[..|group| - 1])
    ensures Addressed(slot, to, group)[|group| - 1] == Delivery(slot, to, group[|group| - 1])
  {
  }

  lemma {:induction false} SendAllReaches(listeners: seq<Listener>, group: seq<Message>, slot: nat)
    ensures ReceivedBy(SendAll(listeners, group), slot) == if slot < |listeners| then group else []
  {
    if listeners == [] {
    } else {
      var n := |listeners| - 1;
      SendAllReaches(listeners[..n], group, slot);
      ReceivedByConcat(SendAll(listeners[..n], group), Addressed(n, listeners[n], group), slot);
      ReceivedByAddressed(n, listeners[n], group, slot);
    }
  }

  /** A registration receives the whole group of every trigger after it was added, in order
      and nothing else: nothing from before, and nothing is lost by later removes. */
  lemma {:induction false} RegistrationReceives(pre: seq<Call>, listener: Listener, post: seq<Call>)
    ensures var slot := |ListenersAfter(pre)|;
            |ListenersAfter(pre + [AddListener(listener)] + post)| > slot &&
            ReceivedBy(LogOf(pre + [AddListener(listener)] + post), slot) == Groups(post)
    decreases |post|
  {
    var slot := |ListenersAfter(pre)|;
    var start := pre + [AddListener(listener)];
    if post == [] {
      assert start + post == start;
      NextCall(pre, AddListener(listener));
      NotYetRegistered(pre, slot);
    } else {
      var init, last := post[..|post| - 1], post[|post| - 1];
      RegistrationReceives(pre, listener, init);
      assert start + post == (start + init) + [last];
      NextCall(start + init, last);
      var listeners := ListenersAfter(start + init);
      ReceivedByConcat(LogOf(start + init), SendAll(listeners, Group(last)), slot);
      SendAllReaches(listeners, Group(last), slot);
    }
  }

  lemma {:induction false} NotYetRegistered(calls: seq<Call>, slot: nat)
    requires slot >= |ListenersAfter(calls)|
    ensures ReceivedBy(LogOf(calls), slot) == []
  {
    if calls == [] {
    } else {
      var init, last := calls[..|calls| - 1], calls[|calls| - 1];
      NotYetRegistered(init, slot);
      ReceivedByConcat(LogOf(init), SendAll(ListenersAfter(init), Group(last)), slot);
      SendAllReaches(ListenersAfter(init), Group(last), slot);
    }
  }

  // ----- what a client object receives, however often it was added

  function ReceivedAt(log: seq<Delivery>, to: Listener): seq<Message> {
    if log == [] then []
    else
      var last := log[|log| - 1];
      ReceivedAt(log[..|log| - 1], to) + (if last.to == to then [last.message] else [])
  }

  function Repeat(group: seq<Message>, n: nat): seq<Message> {
    if n == 0 then [] else Repeat(group, n - 1) + group
  }

  /** Each trigger delivers as many whole groups as the object had been added before. */
  function Expected(calls: seq<Call>, to: Listener): seq<Message> {
    if calls == [] then []
    else
      var init, last := calls[..|calls| - 1], calls[|calls| - 1];
      Expected(init, to) + Repeat(Group(last), multiset(ListenersAfter(init))[to])
  }

  lemma {:induction false} ReceivedAtConcat(a: seq<Delivery>, b: seq<Delivery>, to: Listener)
    ensures ReceivedAt(a + b, to) == ReceivedAt(a, to) + ReceivedAt(b, to)
  {
    if b == [] {
      assert a + b == a;
    } else {
      ReceivedAtConcat(a, b[..|b| - 1], to);
      assert (a + b)[..|a + b| - 1] == a + b[..|b| - 1];
    }
  }

  lemma {:induction false} ReceivedAtAddressed(slot: nat, to: Listener, group: seq<Message>, other: Listener)
    ensures ReceivedAt(Addressed(slot, to, group), other) == if other == to then group else []
  {
    hide Addressed;
    if group == [] {
      assert Addressed(slot, to, group) == [];
    } else {
      var init := group[..|group| - 1];
      ReceivedAtAddressed(slot, to, init, other);
      AddressedInit(slot, to, group);
      assert group == init + [group[|group| - 1]];
    }
  }

  lemma {:induction false} SendAllRepeats(listeners: seq<Listener>, group: seq<Message>, to: Listener)
    ensures ReceivedAt(SendAll(listeners, group), to) == Repeat(group, multiset(listeners)[to])
  {
    hide Addressed, ReceivedAt;
    if listeners == [] {
      NothingReceived(to);
    } else {
      var n := |listeners| - 1;
      SendAllRepeats(listeners[..n], group, to);
      ReceivedAtConcat(SendAll(listeners[..n], group), Addressed(n, listeners[n], group), to);
      ReceivedAtAddressed(n, listeners[n], group, to);
      assert listeners == listeners[..n] + [listeners[n]];
      CountSnoc(listeners[..n], listeners[n], to);
      RepeatNext(group, multiset(listeners[..n])[to]);
    }
  }

  lemma NothingReceived(to: Listener)
    ensures ReceivedAt([], to) == []
  {
  }

  lemma CountSnoc<T>(items: seq<T>, last: T, item: T)
    ensures multiset(items + [last])[item] == multiset(items)[item] + (if last == item then 1 else 0)
  {
  }

  lemma RepeatNext(group: seq<Message>, n: nat)
    ensures Repeat(group, n + 1) == Repeat(group, n) + group && Repeat(group, n) == Repeat(group, n) + []
  {
  }

  /** Over every run, a client object gets, per trigger, one whole group for each time it had
      been added, with no message of one group between those of another. */
  lemma {:induction false} ClientReceives(calls: seq<Call>, to: Listener)
    ensures ReceivedAt(LogOf(calls), to) == Expected(calls, to)
  {
    if calls == [] {
    } else {
      var init, last := calls[..|calls| - 1], calls[|calls| - 1];
      ClientReceives(init, to);
      ReceivedAtConcat(LogOf(init), SendAll(ListenersAfter(init), Group(last)), to);
      SendAllRepeats(ListenersAfter(init), Group(last), to);
    }
  }

  // ----- removing

  function WithoutRemoves(calls: seq<Call>): seq<Call> {
    if calls == [] then []
    else
      var last := calls[|calls| - 1];
      WithoutRemoves(calls[..|calls| - 1]) + (if last.RemoveListener? then [] else [last])
  }

  /** `removeListener` changes nothing: a run without its removes sends the same messages. */
  lemma {:induction false} RemovesChangeNothing(calls: seq<Call>)
    ensures ListenersAfter(WithoutRemoves(calls)) == ListenersAfter(calls)
    ensures LogOf(WithoutRemoves(calls)) == LogOf(calls)
  {
    hide LogOf, ListenersAfter, SendAll;
    if calls == [] {
    } else {
      var init, last := calls[..|calls| - 1], calls[|calls| - 1];
      RemovesChangeNothing(init);
      assert calls == init + [last];
      NextCall(init, last);
      NextCall(WithoutRemoves(init), last);
      assert last.RemoveListener? ==> WithoutRemoves(calls) == WithoutRemoves(init);
      assert !last.RemoveListener? ==> WithoutRemoves(calls) == WithoutRemoves(init) + [last];
    }
  }

  // ----- the messages themselves, by position

  /** The log of one trigger: registration by registration, in the order of their numbers,
      and each gets every message of the group in order before the next gets any. */
  lemma {:induction false} ChangeLogAt(listeners: seq<Listener>, i: nat)
    requires i < |listeners|
    ensures var log, to := SendAll(listeners, [OnChanged, OnParams, OnBundles]), listeners[i];
            |log| == 3 * |listeners| &&
            log[3 * i..3 * i + 3] == [Delivery(i, to, OnChanged), Delivery(i, to, OnParams), Delivery(i, to, OnBundles)]
  {
    hide Addressed;
    var n, group := |listeners| - 1, [OnChanged, OnParams, OnBundles];
    var log, before := SendAll(listeners, group), SendAll(listeners[..n], group);
    SendAllSize(listeners[..n], group);
    assert |log| == 3 * |listeners|;
    if i == n {
      AddressedAt(n, listeners[n], group);
    } else {
      ChangeLogAt(listeners[..n], i);
      assert log[3 * i..3 * i + 3] == before[3 * i..3 * i + 3];
    }
  }

  lemma {:induction false} DeviceLogAt(listeners: seq<Listener>, i: nat)
    requires i < |listeners|
    ensures var log, to := SendAll(listeners, [OnDeviceAdded, OnDeviceAdded, OnDeviceAdded,
                                               OnDeepExample, OnDeepExample]), listeners[i];
            |log| == 5 * |listeners| &&
            log[5 * i..5 * i + 5] == [Delivery(i, to, OnDeviceAdded), Delivery(i, to, OnDeviceAdded),
                                      Delivery(i, to, OnDeviceAdded), Delivery(i, to, OnDeepExample),
                                      Delivery(i, to, OnDeepExample)]
  {
    hide Addressed;
    var n, group := |listeners| - 1, [OnDeviceAdded, OnDeviceAdded, OnDeviceAdded, OnDeepExample, OnDeepExample];
    var log, before := SendAll(listeners, group), SendAll(listeners[..n], group);
    SendAllSize(listeners[..n], group);
    assert |log| == 5 * |listeners|;
    if i == n {
      AddressedAt(n, listeners[n], group);
    } else {
      DeviceLogAt(listeners[..n], i);
      assert log[5 * i..5 * i + 5] == before[5 * i..5 * i + 5];
    }
  }

  lemma AddressedAt(slot: nat, to: Listener, group: seq<Message>)
    ensures forall k | 0 <= k < |group| :: Addressed(slot, to, group)[k] == Delivery(slot, to, group[k])
  {
  }

  lemma {:induction false} SendAllSize(listeners: seq<Listener>, group: seq<Message>)
    ensures |SendAll(listeners, group)| == |group| * |listeners|
  {
    if listeners == [] {
    } else {
      var n := |listeners| - 1;
      SendAllSize(listeners[..n], group);
      assert |group| * |listeners| == |group| * n + |group|;
    }
  }

  /** What a registration has received after each further call, from nothing on. With an
      empty `post` this is the first call after the add. */
  lemma RegistrationStep(pre: seq<Call>, listener: Listener, post: seq<Call>, call: Call)
    ensures var slot, start := |ListenersAfter(pre)|, pre + [AddListener(listener)];
            var before, after := ReceivedBy(LogOf(start + post), slot), ReceivedBy(LogOf(start + post + [call]), slot);
            ReceivedBy(LogOf(start), slot) == [] &&
            match call
            case TriggerChange => after == before + [OnChanged, OnParams, OnBundles]
            case TriggerDeviceAdded =>
              after == before + [OnDeviceAdded, OnDeviceAdded, OnDeviceAdded, OnDeepExample, OnDeepExample]
            case AddListener(_) => after == before
            case RemoveListener(_) => after == before
  {
    hide LogOf, ReceivedBy, ListenersAfter;
    var start := pre + [AddListener(listener)];
    RegistrationReceives(pre, listener, []);
    RegistrationReceives(pre, listener, post);
    RegistrationReceives(pre, listener, post + [call]);
    assert start + [] == start && start + (post + [call]) == start + post + [call];
    assert (post + [call])[..|post|] == post;
  }

  lemma GroupSize(call: Call)
    ensures |Group(call)| == if call == TriggerChange then 3 else if call == TriggerDeviceAdded then 5 else 0
  {
  }

  lemma {:induction false} GroupsSize(calls: seq<Call>)
    ensures |Groups(calls)| == 3 * multiset(calls)[TriggerChange] + 5 * multiset(calls)[TriggerDeviceAdded]
  {
    hide Group;
    if calls == [] {
    } else {
      var n := |calls| - 1;
      GroupsSize(calls[..n]);
      assert calls == calls[..n] + [calls[n]];
      CountSnoc(calls[..n], calls[n], TriggerChange);
      CountSnoc(calls[..n], calls[n], TriggerDeviceAdded);
      GroupSize(calls[n]);
    }
  }

  lemma {:induction false} GroupStandsAt(calls: seq<Call>, i: nat)
    requires i < |calls|
    ensures var at := |Groups(calls[..i])|;
            at + |Group(calls[i])| <= |Groups(calls)| && Groups(calls)[at..at + |Group(calls[i])|] == Group(calls[i])
  {
    hide Group;
    var n := |calls| - 1;
    if i == n {
    } else {
      GroupStandsAt(calls[..n], i);
      assert calls[..n][..i] == calls[..i];
      var at := |Groups(calls[..i])|;
      assert Groups(calls)[..|Groups(calls[..n])|] == Groups(calls[..n]);
    }
  }

  /** A whole run by position: call `i` after the add adds its messages behind three for every
      earlier change and five for every earlier device trigger, and nothing else is there. */
  lemma RunByPosition(pre: seq<Call>, listener: Listener, post: seq<Call>, i: nat)
    requires i < |post|
    ensures var received := ReceivedBy(LogOf(pre + [AddListener(listener)] + post), |ListenersAfter(pre)|);
            var at := 3 * multiset(post[..i])[TriggerChange] + 5 * multiset(post[..i])[TriggerDeviceAdded];
            |received| == 3 * multiset(post)[TriggerChange] + 5 * multiset(post)[TriggerDeviceAdded] &&
            (post[i] == TriggerChange ==>
               at + 3 <= |received| && received[at..at + 3] == [OnChanged, OnParams, OnBundles]) &&
            (post[i] == TriggerDeviceAdded ==>
               at + 5 <= |received| &&
               received[at..at + 5] == [OnDeviceAdded, OnDeviceAdded, OnDeviceAdded, OnDeepExample, OnDeepExample])
  {
    hide LogOf, ReceivedBy, ListenersAfter, Groups;
    RegistrationReceives(pre, listener, post);
    GroupsSize(post);
    GroupsSize(post[..i]);
    GroupStandsAt(post, i);
  }

  /** The listener array counts how often each client object was added. */
  lemma {:induction false} AddsCounted(calls: seq<Call>, to: Listener)
    ensures multiset(ListenersAfter(calls))[to] == multiset(calls)[AddListener(to)]
  {
    if calls == [] {
    } else {
      var n := |calls| - 1;
      AddsCounted(calls[..n], to);
      assert calls == calls[..n] + [calls[n]];
      CountSnoc(calls[..n], calls[n], AddListener(to));
      if calls[n].AddListener? {
        CountSnoc(ListenersAfter(calls[..n]), calls[n].listener, to);
      }
    }
  }

  lemma {:induction false} RepeatAt(group: seq<Message>, n: nat, k: nat)
    requires |group| == 3 || |group| == 5
    ensures |group| == 3 ==> |Repeat(group, n)| == 3 * n
    ensures |group| == 5 ==> |Repeat(group, n)| == 5 * n
    ensures |group| == 3 && k < n ==> Repeat(group, n)[3 * k..3 * k + 3] == group
    ensures |group| == 5 && k < n ==> Repeat(group, n)[5 * k..5 * k + 5] == group
  {
    if n == 0 {
    } else {
      RepeatAt(group, n - 1, k);
      if k < n - 1 {
        assert Repeat(group, n)[..|Repeat(group, n - 1)|] == Repeat(group, n - 1);
      }
    }
  }

  lemma {:induction false} RepeatNone(n: nat)
    ensures Repeat([], n) == []
  {
    if n == 0 {
    } else {
      RepeatNone(n - 1);
    }
  }

  /** What a client object has received after each further call, from nothing on: `n` whole
      groups when it had been added `n` times. */
  lemma ClientStep(calls: seq<Call>, call: Call, to: Listener, k: nat)
    ensures var before, after := ReceivedAt(LogOf(calls), to), ReceivedAt(LogOf(calls + [call]), to);
            var n, at := multiset(calls)[AddListener(to)], |before|;
            ReceivedAt(LogOf([]), to) == [] && |before| <= |after| && after[..at] == before &&
            match call
            case TriggerChange =>
              |after| == at + 3 * n &&
              (k < n ==> after[at + 3 * k..at + 3 * k + 3] == [OnChanged, OnParams, OnBundles])
            case TriggerDeviceAdded =>
              |after| == at + 5 * n &&
              (k < n ==> after[at + 5 * k..at + 5 * k + 5] ==
                         [OnDeviceAdded, OnDeviceAdded, OnDeviceAdded, OnDeepExample, OnDeepExample])
            case AddListener(_) => after == before
            case RemoveListener(_) => after == before
  {
    hide LogOf, ReceivedAt, Repeat, ListenersAfter;
    var n := multiset(calls)[AddListener(to)];
    ClientGroups(calls, call, to);
    match call
    case TriggerChange => RepeatAt([OnChanged, OnParams, OnBundles], n, k);
    case TriggerDeviceAdded =>
      RepeatAt([OnDeviceAdded, OnDeviceAdded, OnDeviceAdded, OnDeepExample, OnDeepExample], n, k);
    case _ => RepeatNone(n);
  }

  lemma ClientGroups(calls: seq<Call>, call: Call, to: Listener)
    ensures ReceivedAt(LogOf([]), to) == []
    ensures ReceivedAt(LogOf(calls + [call]), to) ==
            ReceivedAt(LogOf(calls), to) + Repeat(Group(call), multiset(calls)[AddListener(to)])
  {
    hide LogOf, ReceivedAt, Repeat, ListenersAfter, Group;
    ClientReceives([], to);
    ClientReceives(calls, to);
    ClientReceives(calls + [call], to);
    AddsCounted(calls, to);
    assert (calls + [call])[..|calls|] == calls;
  }

  /** A client object that was never added receives nothing. */
  lemma {:induction false} NeverAdded(calls: seq<Call>, to: Listener)
    requires AddListener(to) !in calls
    ensures ReceivedAt(LogOf(calls), to) == []
  {
    hide LogOf, ReceivedAt;
    if calls == [] {
      ClientStep([], TriggerChange, to, 0);
    } else {
      var n := |calls| - 1;
      assert calls == calls[..n] + [calls[n]];
      NeverAdded(calls[..n], to);
      ClientStep(calls[..n], calls[n], to, 0);
    }
  }
}
