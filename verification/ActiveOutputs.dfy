/** miral/active_outputs.cpp and miral/output.cpp: successive display configurations become notices to listeners; a
    listener can follow the outputs from the notices alone. */
module ActiveOutputs {
  import opened Sequences
  import opened Geometry

  type Key = (int, int)
  type Listener = nat

  datatype Output = Output(
    cardId: int, id: int, extents: Rectangle, formFactor: int, orientation: int, pixelFormat: int, physicalSize: Size,
    scale: real, kind: int, connected: bool, used: bool, powerOn: bool, valid: bool)
  {
    function Key(): Key { (cardId, id) }

    predicate IsSameOutput(other: Output) { cardId == other.cardId && id == other.id }

    predicate Bad() { !valid || !used || !connected || !powerOn }
  }

  predicate EquivalentDisplayArea(lhs: Output, rhs: Output) {
    if lhs.Bad() || rhs.Bad() then lhs.Bad() == rhs.Bad()
    else
      && lhs.extents == rhs.extents
      && lhs.formFactor == rhs.formFactor
      && lhs.orientation == rhs.orientation
      && lhs.pixelFormat == rhs.pixelFormat
      && lhs.physicalSize == rhs.physicalSize
      && lhs.scale == rhs.scale
      && lhs.kind == rhs.kind
  }

  lemma {:induction false} EquivalentIsEquivalence(a: Output, b: Output, c: Output)
    ensures EquivalentDisplayArea(a, a)
    ensures EquivalentDisplayArea(a, b) <==> EquivalentDisplayArea(b, a)
    ensures EquivalentDisplayArea(a, b) && EquivalentDisplayArea(b, c) ==> EquivalentDisplayArea(a, c)
  {
  }

  datatype Notice =
    | Begin
    | Create(output: Output)
    | Update(updated: Output, original: Output)
    | Delete(output: Output)
    | End

  // ----- the difference of two configurations

  function Find(os: seq<Output>, o: Output): (r: Option<Output>)
    ensures r.Some? ==> r.value in os && r.value.IsSameOutput(o)
    ensures r.None? ==> forall x :: x in os ==> !x.IsSameOutput(o)
  {
    if os == [] then None
    else if os[0].IsSameOutput(o) then Some(os[0])
    else Find(os[1..], o)
  }

  /** The outputs of a configuration that count. */
  function Usable(config: seq<Output>): (r: seq<Output>)
    ensures forall o :: o in r <==> o in config && o.connected && o.valid
  {
    if config == [] then []
    else
      var last := config[|config| - 1];
      assert config == config[..|config| - 1] + [last];
      Usable(config[..|config| - 1]) + if last.connected && last.valid then [last] else []
  }

  function Announce(outputs: seq<Output>, o: Output): seq<Notice> {
    var op := Find(outputs, o);
    if op.None? then [Create(o)]
    else if !EquivalentDisplayArea(o, op.value) then [Update(o, op.value)]
    else []
  }

  function Announcements(outputs: seq<Output>, current: seq<Output>): seq<Notice> {
    if current == [] then []
    else Announcements(outputs, current[..|current| - 1]) + Announce(outputs, current[|current| - 1])
  }

  function Deletions(outputs: seq<Output>, current: seq<Output>): seq<Notice> {
    if outputs == [] then []
    else
      var o := outputs[|outputs| - 1];
      Deletions(outputs[..|outputs| - 1], current) + if Find(current, o).None? then [Delete(o)] else []
  }

  function Notices(outputs: seq<Output>, config: seq<Output>): seq<Notice> {
    [Begin] + Announcements(outputs, Usable(config)) + Deletions(outputs, Usable(config)) + [End]
  }

  // ----- the monitor

  /** One notice, to all listeners in turn. */
  function Row(listeners: seq<Listener>, n: Notice): seq<(Listener, Notice)> {
    if listeners == [] then [] else Row(listeners[..|listeners| - 1], n) + [(listeners[|listeners| - 1], n)]
  }

  /** What the listeners are told. */
  function Broadcast(listeners: seq<Listener>, notices: seq<Notice>): seq<(Listener, Notice)> {
    if notices == [] then []
    else Broadcast(listeners, notices[..|notices| - 1]) + Row(listeners, notices[|notices| - 1])
  }

  /** The monitor's fields and what has been told so far. */
  datatype Monitor = Monitor(listeners: seq<Listener>, outputs: seq<Output>, told: seq<(Listener, Notice)>)

  datatype Event = Add(listener: Listener) | Remove(listener: Listener) | Apply(config: seq<Output>)

  function After(m: Monitor, e: Event): Monitor {
    match e
    case Add(l) => m.(listeners := m.listeners + [l])
    case Remove(l) => m.(listeners := Without(m.listeners, {l}))
    case Apply(config) =>
      m.(outputs := Usable(config), told := m.told + Broadcast(m.listeners, Notices(m.outputs, config)))
  }

  class ActiveOutputsMonitor {
    var listeners: seq<Listener>
    var outputs: seq<Output>
    var told: seq<(Listener, Notice)>

    function State(): Monitor
      reads this
    {
      Monitor(listeners, outputs, told)
    }

    constructor ()
      ensures State() == Monitor([], [], [])
    {
      listeners, outputs, told := [], [], [];
    }

    method AddListener(listener: Listener)
      modifies this`listeners
      ensures State() == After(old(State()), Add(listener))
    {
      listeners := listeners + [listener];
    }

    method DeleteListener(listener: Listener)
      modifies this`listeners
      ensures State() == After(old(State()), Remove(listener))
    {
      listeners := Without(listeners, {listener});
    }

    method Tell(notice: Notice, ghost before: seq<(Listener, Notice)>, ghost said: seq<Notice>)
      requires told == before + Broadcast(listeners, said)
      modifies this`told
      ensures told == before + Broadcast(listeners, said + [notice])
    {
      ghost var start := told;
      var audience := listeners;
      for i := 0 to |audience|
        invariant told == start + Row(audience[..i], notice)
      {
        assert audience[..i + 1][..i] == audience[..i];
        told := told + [(audience[i], notice)];
      }
      assert audience[..|audience|] == audience;
      SaidOneMore(listeners, before, said, notice);
    }

    method FindSame(os: seq<Output>, o: Output) returns (r: Option<Output>)
      ensures r == Find(os, o)
    {
      var i := 0;
      while i < |os|
        invariant 0 <= i <= |os|
        invariant Find(os, o) == Find(os[i..], o)
      {
        assert os[i..][1..] == os[i + 1..];
        if os[i].IsSameOutput(o) {
          return Some(os[i]);
        }
        i := i + 1;
      }
      r := None;
    }

    method TellNews(config: seq<Output>, ghost before: seq<(Listener, Notice)>) returns (currentOutputs: seq<Output>)
      requires told == before + Broadcast(listeners, [Begin])
      modifies this`told
      ensures currentOutputs == Usable(config)
      ensures told == before + Broadcast(listeners, [Begin] + Announcements(outputs, currentOutputs))
    {
      currentOutputs := [];
      assert [Begin] + Announcements(outputs, []) == [Begin];
      for i := 0 to |config|
        invariant currentOutputs == Usable(config[..i])
        invariant told == before + Broadcast(listeners, [Begin] + Announcements(outputs, currentOutputs))
      {
        assert config[..i + 1][..i] == config[..i];
        var o := config[i];
        if o.connected && o.valid {
          ghost var said := [Begin] + Announcements(outputs, currentOutputs);
          AnnouncementsGrow(outputs, currentOutputs, o);
          var op := FindSame(outputs, o);
          if op.None? {
            Tell(Create(o), before, said);
          } else if !EquivalentDisplayArea(o, op.value) {
            Tell(Update(o, op.value), before, said);
          }
          currentOutputs := currentOutputs + [o];
        }
      }
      assert config[..|config|] == config;
    }

    method TellGone(currentOutputs: seq<Output>, ghost before: seq<(Listener, Notice)>, ghost said: seq<Notice>)
      requires told == before + Broadcast(listeners, said)
      modifies this`told
      ensures told == before + Broadcast(listeners, said + Deletions(outputs, currentOutputs))
    {
      ghost var soFar := said;
      assert said + Deletions([], currentOutputs) == said;
      for i := 0 to |outputs|
        invariant soFar == said + Deletions(outputs[..i], currentOutputs)
        invariant told == before + Broadcast(listeners, soFar)
      {
        DeletionsGrow(outputs[..i], outputs[i], currentOutputs, said);
        assert outputs[..i] + [outputs[i]] == outputs[..i + 1];
        var op := FindSame(currentOutputs, outputs[i]);
        if op.None? {
          Tell(Delete(outputs[i]), before, soFar);
          soFar := soFar + [Delete(outputs[i])];
        }
      }
      assert outputs[..|outputs|] == outputs;
    }

    /** Tell the listeners what is new, different or gone, and remember the configuration. */
    method ConfigurationApplied(config: seq<Output>)
      modifies this`outputs, this`told
      ensures outputs == Usable(config)
      ensures told == old(told) + Broadcast(listeners, Notices(old(outputs), config))
      ensures State() == After(old(State()), Apply(config))
    {
      ghost var before := told;
      assert told == before + Broadcast(listeners, []) && [] + [Begin] == [Begin];
      Tell(Begin, before, []);
      var currentOutputs := TellNews(config, before);
      TellGone(currentOutputs, before, [Begin] + Announcements(outputs, currentOutputs));
      Tell(End, before, [Begin] + Announcements(outputs, currentOutputs) + Deletions(outputs, currentOutputs));
      outputs := currentOutputs;
    }
  }

  lemma {:induction false} SaidOneMore(
      listeners: seq<Listener>, before: seq<(Listener, Notice)>, said: seq<Notice>, n: Notice)
    ensures before + Broadcast(listeners, said) + Row(listeners, n) == before + Broadcast(listeners, said + [n])
  {
    assert (said + [n])[..|said + [n]| - 1] == said;
  }

  lemma {:induction false} AnnouncementsGrow(outputs: seq<Output>, current: seq<Output>, o: Output)
    ensures [Begin] + Announcements(outputs, current + [o]) ==
            [Begin] + Announcements(outputs, current) + Announce(outputs, o)
    ensures Announce(outputs, o) == [] ==>
              [Begin] + Announcements(outputs, current + [o]) == [Begin] + Announcements(outputs, current)
  {
    assert (current + [o])[..|current + [o]| - 1] == current;
  }

  lemma {:induction false} DeletionsGrow(front: seq<Output>, o: Output, current: seq<Output>, said: seq<Notice>)
    ensures said + Deletions(front + [o], current) ==
            if Find(current, o).None? then said + Deletions(front, current) + [Delete(o)]
            else said + Deletions(front, current)
  {
    assert (front + [o])[..|front + [o]| - 1] == front;
  }

  /** What one listener hears. */
  function Heard(told: seq<(Listener, Notice)>, l: Listener): seq<Notice> {
    if told == [] then []
    else Heard(told[..|told| - 1], l) + if told[|told| - 1].0 == l then [told[|told| - 1].1] else []
  }

  lemma {:induction false} HeardConcat(a: seq<(Listener, Notice)>, b: seq<(Listener, Notice)>, l: Listener)
    ensures Heard(a + b, l) == Heard(a, l) + Heard(b, l)
  {
    if b == [] {
      assert a + b == a;
    } else {
      assert (a + b)[..|a + b| - 1] == a + b[..|b| - 1];
      HeardConcat(a, b[..|b| - 1], l);
    }
  }

  function CountOf(listeners: seq<Listener>, l: Listener): nat {
    if listeners == [] then 0
    else CountOf(listeners[..|listeners| - 1], l) + if listeners[|listeners| - 1] == l then 1 else 0
  }

  /** Each notice k times in a row. */
  function Each(notices: seq<Notice>, k: nat): seq<Notice> {
    if notices == [] then [] else Each(notices[..|notices| - 1], k) + Copies(notices[|notices| - 1], k)
  }

  function Copies(n: Notice, k: nat): seq<Notice> {
    if k == 0 then [] else Copies(n, k - 1) + [n]
  }

  lemma {:induction false} HeardRow(listeners: seq<Listener>, n: Notice, l: Listener)
    ensures Heard(Row(listeners, n), l) == Copies(n, CountOf(listeners, l))
  {
    if listeners != [] {
      var front, last := listeners[..|listeners| - 1], listeners[|listeners| - 1];
      HeardRow(front, n, l);
      HeardConcat(Row(front, n), [(last, n)], l);
      assert [(last, n)][..0] == [];
    }
  }

  /** A listener hears exactly the notices, in order, each as often as it is registered. */
  lemma {:induction false} ListenerHears(listeners: seq<Listener>, notices: seq<Notice>, l: Listener)
    ensures Heard(Broadcast(listeners, notices), l) == Each(notices, CountOf(listeners, l))
  {
    if notices != [] {
      var front, n := notices[..|notices| - 1], notices[|notices| - 1];
      ListenerHears(listeners, front, l);
      HeardConcat(Broadcast(listeners, front), Row(listeners, n), l);
      HeardRow(listeners, n, l);
    }
  }

  lemma {:induction false} EachOnce(notices: seq<Notice>)
    ensures Each(notices, 1) == notices
  {
    if notices != [] {
      EachOnce(notices[..|notices| - 1]);
      assert Copies(notices[|notices| - 1], 1) == Copies(notices[|notices| - 1], 0) + [notices[|notices| - 1]];
    }
  }

  // ----- what a listener hears over a run

  function Run(m: Monitor, events: seq<Event>): Monitor {
    if events == [] then m else After(Run(m, events[..|events| - 1]), events[|events| - 1])
  }

  const START := Monitor([], [], [])

  /** How often a listener is registered: once for each time it was added since it was last deleted. */
  function Registered(events: seq<Event>, l: Listener): nat {
    if events == [] then 0
    else
      var before := Registered(events[..|events| - 1], l);
      match events[|events| - 1]
      case Add(x) => if x == l then before + 1 else before
      case Remove(x) => if x == l then 0 else before
      case Apply(_) => before
  }

  /** The outputs of the last configuration applied. */
  function LastApplied(events: seq<Event>): seq<Output> {
    if events == [] then []
    else if events[|events| - 1].Apply? then Usable(events[|events| - 1].config)
    else LastApplied(events[..|events| - 1])
  }

  /** What it should hear of an event: of a configuration, its difference from the last one, as often as it is
      registered then. */
  function DueOf(before: seq<Event>, e: Event, l: Listener): seq<Notice> {
    if e.Apply? then Each(Notices(LastApplied(before), e.config), Registered(before, l)) else []
  }

  /** And of the events that come after others. */
  function Due(before: seq<Event>, events: seq<Event>, l: Listener): seq<Notice> {
    if events == [] then []
    else
      var front, last := events[..|events| - 1], events[|events| - 1];
      Due(before, front, l) + DueOf(before + front, last, l)
  }

  lemma {:induction false} CountWithout(listeners: seq<Listener>, x: Listener, l: Listener)
    ensures CountOf(Without(listeners, {x}), l) == if x == l then 0 else CountOf(listeners, l)
  {
    if listeners != [] {
      var front, last := listeners[..|listeners| - 1], listeners[|listeners| - 1];
      CountWithout(front, x, l);
      if last != x {
        CountOneMore(Without(front, {x}), last, l);
      } else {
        assert Without(listeners, {x}) == Without(front, {x});
      }
    }
  }

  lemma {:induction false} CountOneMore(listeners: seq<Listener>, x: Listener, l: Listener)
    ensures CountOf(listeners + [x], l) == CountOf(listeners, l) + if x == l then 1 else 0
  {
    assert (listeners + [x])[..|listeners + [x]| - 1] == listeners;
  }

  lemma {:induction false} RunHolds(events: seq<Event>, l: Listener)
    ensures Run(START, events).outputs == LastApplied(events)
    ensures CountOf(Run(START, events).listeners, l) == Registered(events, l)
  {
    if events != [] {
      var front, last := events[..|events| - 1], events[|events| - 1];
      RunHolds(front, l);
      match last {
        case Add(x) => CountOneMore(Run(START, front).listeners, x, l);
        case Remove(x) => CountWithout(Run(START, front).listeners, x, l);
        case Apply(_) =>
      }
    }
  }

  lemma {:induction false} Append(a: seq<Notice>, b: seq<Notice>, c: seq<Notice>)
    ensures (a + b) + c == a + (b + c)
  {
  }

  /** Whatever is added, deleted and applied, a listener hears what is due to it and nothing else. */
  lemma {:induction false} HearsWhatIsDue(before: seq<Event>, events: seq<Event>, l: Listener)
    ensures Heard(Run(START, before + events).told, l) == Heard(Run(START, before).told, l) + Due(before, events, l)
  {
    if events == [] {
      assert before + events == before;
    } else {
      HearsWhatIsDue(before, events[..|events| - 1], l);
      HearsOneEvent(before + events[..|events| - 1], events[|events| - 1], l);
      Append(Heard(Run(START, before).told, l), Due(before, events[..|events| - 1], l),
             DueOf(before + events[..|events| - 1], events[|events| - 1], l));
      SplitLast(before, events);
    }
  }

  lemma {:induction false} HearsOneEvent(events: seq<Event>, e: Event, l: Listener)
    ensures Heard(Run(START, events + [e]).told, l) == Heard(Run(START, events).told, l) + DueOf(events, e, l)
  {
    var m := Run(START, events);
    RunOneMore(START, events, e);
    RunHolds(events, l);
    if e.Apply? {
      ListenerHears(m.listeners, Notices(m.outputs, e.config), l);
      HeardConcat(m.told, Broadcast(m.listeners, Notices(m.outputs, e.config)), l);
    }
  }

  lemma {:induction false} RunOneMore(m: Monitor, events: seq<Event>, e: Event)
    ensures Run(m, events + [e]) == After(Run(m, events), e)
    ensures LastApplied(events + [e]) == if e.Apply? then Usable(e.config) else LastApplied(events)
  {
    assert (events + [e])[..|events + [e]| - 1] == events;
  }

  // ----- a listener that follows

  type Mirror = map<Key, Output>

  function Follow(m: Mirror, n: Notice): Mirror {
    match n
    case Create(o) => m[o.Key() := o]
    case Update(updated, _) => m[updated.Key() := updated]
    case Delete(o) => m - {o.Key()}
    case _ => m
  }

  function FollowAll(m: Mirror, notices: seq<Notice>): Mirror {
    if notices == [] then m
    else Follow(FollowAll(m, notices[..|notices| - 1]), notices[|notices| - 1])
  }

  ghost predicate UniqueKeys(os: seq<Output>) {
    forall i, j :: 0 <= i < j < |os| ==> os[i].Key() != os[j].Key()
  }

  ghost predicate Has(os: seq<Output>, k: Key) {
    exists o :: o in os && o.Key() == k
  }

  /** The mirror holds the same outputs as the list, each up to its display area. */
  ghost predicate Mirrors(m: Mirror, os: seq<Output>) {
    && (forall k :: k in m <==> Has(os, k))
    && (forall o :: o in os ==> o.Key() in m && EquivalentDisplayArea(m[o.Key()], o))
  }

  lemma {:induction false} FollowConcat(m: Mirror, a: seq<Notice>, b: seq<Notice>)
    ensures FollowAll(m, a + b) == FollowAll(FollowAll(m, a), b)
  {
    if b == [] {
      assert a + b == a;
    } else {
      assert (a + b)[..|a + b| - 1] == a + b[..|b| - 1];
      FollowConcat(m, a, b[..|b| - 1]);
    }
  }

  /** The monitor has an output of that identity and equivalent area: no notice is given. */
  predicate Silent(outputs: seq<Output>, o: Output) {
    Find(outputs, o).Some? && EquivalentDisplayArea(o, Find(outputs, o).value)
  }

  ghost predicate SameAt(m: Mirror, m1: Mirror, k: Key) {
    (k in m1 <==> k in m) && (k in m ==> m1[k] == m[k])
  }

  /** m1 has the listed outputs that were announced as they are now, and everything else as m has it. */
  ghost predicate Announced(m: Mirror, outputs: seq<Output>, current: seq<Output>, m1: Mirror) {
    && (forall o :: o in current ==>
          if Silent(outputs, o) then SameAt(m, m1, o.Key()) else o.Key() in m1 && m1[o.Key()] == o)
    && (forall k :: !Has(current, k) ==> SameAt(m, m1, k))
  }

  lemma {:induction false} AnnouncedOneMore(
      m: Mirror, outputs: seq<Output>, front: seq<Output>, o: Output, m1: Mirror, m2: Mirror)
    requires Announced(m, outputs, front, m1) && !Has(front, o.Key())
    requires m2 == if Silent(outputs, o) then m1 else m1[o.Key() := o]
    ensures Announced(m, outputs, front + [o], m2)
  {
    forall k
      ensures Has(front + [o], k) <==> Has(front, k) || k == o.Key()
    {
      HasOneMore(front, o, k);
    }
    assert forall x :: x in front ==> Has(front, x.Key());
  }

  lemma {:induction false} NewsAnnounced(m: Mirror, outputs: seq<Output>, current: seq<Output>)
    requires UniqueKeys(current)
    ensures Announced(m, outputs, current, FollowAll(m, Announcements(outputs, current)))
  {
    if current != [] {
      var front, o := current[..|current| - 1], current[|current| - 1];
      assert current == front + [o];
      NewsAnnounced(m, outputs, front);
      NewKey(front, o);
      FollowConcat(m, Announcements(outputs, front), Announce(outputs, o));
      var m1 := FollowAll(m, Announcements(outputs, front));
      OneNotice(m1, Announce(outputs, o));
      AnnouncedOneMore(m, outputs, front, o, m1, FollowAll(m1, Announce(outputs, o)));
    }
  }

  lemma {:induction false} NewKey(front: seq<Output>, o: Output)
    requires UniqueKeys(front + [o])
    ensures forall x :: x in front ==> x.Key() != o.Key()
  {
    var all := front + [o];
    forall x | x in front
      ensures x.Key() != o.Key()
    {
      var i :| 0 <= i < |front| && front[i] == x;
      assert all[i] == x && all[|front|] == o;
    }
  }

  lemma {:induction false} HasOneMore(front: seq<Output>, o: Output, k: Key)
    ensures Has(front + [o], k) <==> Has(front, k) || k == o.Key()
  {
    assert o in front + [o];
    if Has(front, k) {
      var x :| x in front && x.Key() == k;
      assert x in front + [o];
    }
  }

  lemma {:induction false} OneNotice(m: Mirror, notices: seq<Notice>)
    requires |notices| <= 1
    ensures FollowAll(m, notices) == if notices == [] then m else Follow(m, notices[0])
  {
  }

  /** The outputs of the list that are not current any more are taken away and nothing else is. */
  ghost predicate Pruned(m: Mirror, m': Mirror, outputs: seq<Output>, current: seq<Output>) {
    && (forall k :: k in m' <==> k in m && !(Has(outputs, k) && !Has(current, k)))
    && (forall k :: k in m' ==> m'[k] == m[k])
  }

  lemma {:induction false} PrunedOneMore(
      m: Mirror, m1: Mirror, m': Mirror, front: seq<Output>, o: Output, current: seq<Output>)
    requires Pruned(m, m1, front, current)
    requires m' == if Has(current, o.Key()) then m1 else m1 - {o.Key()}
    ensures Pruned(m, m', front + [o], current)
  {
    forall k
      ensures Has(front + [o], k) <==> Has(front, k) || k == o.Key()
    {
      HasOneMore(front, o, k);
    }
  }

  lemma {:induction false} Deleted(m: Mirror, outputs: seq<Output>, current: seq<Output>)
    ensures Pruned(m, FollowAll(m, Deletions(outputs, current)), outputs, current)
  {
    if outputs != [] {
      var front, o := outputs[..|outputs| - 1], outputs[|outputs| - 1];
      Deleted(m, front, current);
      var m1, last := FollowAll(m, Deletions(front, current)), if Find(current, o).None? then [Delete(o)] else [];
      FollowConcat(m, Deletions(front, current), last);
      OneNotice(m1, last);
      assert outputs == front + [o];
      FoundIffHas(current, o);
      PrunedOneMore(m, m1, FollowAll(m1, last), front, o, current);
    } else {
      assert forall k :: !Has(outputs, k);
    }
  }

  lemma {:induction false} FoundIffHas(os: seq<Output>, o: Output)
    ensures Find(os, o).Some? <==> Has(os, o.Key())
  {
    if Has(os, o.Key()) {
      var x :| x in os && x.Key() == o.Key();
      assert x.IsSameOutput(o);
    }
  }

  lemma {:induction false} NoticesInTwoParts(m: Mirror, outputs: seq<Output>, config: seq<Output>)
    ensures FollowAll(m, Notices(outputs, config)) ==
            FollowAll(FollowAll(m, Announcements(outputs, Usable(config))), Deletions(outputs, Usable(config)))
  {
    var news, gone := Announcements(outputs, Usable(config)), Deletions(outputs, Usable(config));
    FollowConcat(m, [Begin] + news + gone, [End]);
    FollowConcat(m, [Begin] + news, gone);
    FollowConcat(m, [Begin], news);
    OneNotice(m, [Begin]);
    OneNotice(FollowAll(m, [Begin] + news + gone), [End]);
  }

  /** What a mirror needs to be right after a configuration: the outputs nothing is said about, and no outputs but
      those the monitor had or has. */
  ghost predicate ReadyFor(m: Mirror, outputs: seq<Output>, current: seq<Output>) {
    && (forall o :: o in current && Silent(outputs, o) ==> o.Key() in m && EquivalentDisplayArea(m[o.Key()], o))
    && (forall k :: k in m ==> Has(outputs, k) || Has(current, k))
  }

  /** Whatever a listener knew before, it is in step after a configuration exactly if it was ready for it. */
  lemma {:induction false} InStepAfter(m: Mirror, outputs: seq<Output>, config: seq<Output>)
    requires UniqueKeys(Usable(config))
    ensures Mirrors(FollowAll(m, Notices(outputs, config)), Usable(config)) <==> ReadyFor(m, outputs, Usable(config))
  {
    var current := Usable(config);
    var m1 := FollowAll(m, Announcements(outputs, current));
    NoticesInTwoParts(m, outputs, config);
    NewsAnnounced(m, outputs, current);
    Deleted(m1, outputs, current);
    MirrorsIffReady(m, m1, FollowAll(m1, Deletions(outputs, current)), outputs, current);
  }

  lemma {:induction false} MirrorsIffReady(
      m: Mirror, m1: Mirror, m': Mirror, outputs: seq<Output>, current: seq<Output>)
    requires Announced(m, outputs, current, m1) && Pruned(m1, m', outputs, current)
    ensures Mirrors(m', current) <==> ReadyFor(m, outputs, current)
  {
    forall o | o in current
      ensures if Silent(outputs, o) then SameAt(m, m', o.Key()) else
              o.Key() in m' && EquivalentDisplayArea(m'[o.Key()], o)
    {
      assert Has(current, o.Key());
      EquivalentIsEquivalence(o, o, o);
    }
    MirrorsIff(m, m', outputs, current);
  }

  lemma {:induction false} MirrorsIff(m: Mirror, m': Mirror, outputs: seq<Output>, current: seq<Output>)
    requires forall o :: o in current ==>
               if Silent(outputs, o) then SameAt(m, m', o.Key())
               else o.Key() in m' && EquivalentDisplayArea(m'[o.Key()], o)
    requires forall k :: !Has(current, k) ==> (k in m' <==> k in m && !Has(outputs, k))
    ensures Mirrors(m', current) <==> ReadyFor(m, outputs, current)
  {
    assert forall o :: o in current ==> Has(current, o.Key());
  }

  /** So a listener that was in step before is in step after. */
  lemma {:induction false} StaysInStep(m: Mirror, outputs: seq<Output>, config: seq<Output>)
    requires Mirrors(m, outputs) && UniqueKeys(Usable(config))
    ensures Mirrors(FollowAll(m, Notices(outputs, config)), Usable(config))
  {
    forall o | o in Usable(config) && Silent(outputs, o)
      ensures o.Key() in m && EquivalentDisplayArea(m[o.Key()], o)
    {
      var op := Find(outputs, o).value;
      assert op.Key() == o.Key();
      EquivalentIsEquivalence(m[o.Key()], op, o);
      EquivalentIsEquivalence(o, op, o);
    }
    InStepAfter(m, outputs, config);
  }

  /** Nobody touches the listener's registration, and no configuration has two outputs of one identity. */
  ghost predicate Undisturbed(events: seq<Event>, l: Listener) {
    forall e :: e in events ==> e != Add(l) && e != Remove(l) && (e.Apply? ==> UniqueKeys(Usable(e.config)))
  }

  /** After these events the listener is registered once and in step if it has followed what it heard. */
  ghost predicate InStep(events: seq<Event>, heard: seq<Notice>, l: Listener, m: Mirror) {
    Registered(events, l) == 1 && Mirrors(FollowAll(m, heard), LastApplied(events))
  }

  /** If it is so at some time, because it was added before the first configuration or has looked at the outputs since,
      it stays so, whoever else is added and deleted meanwhile: its mirror is that of the monitor's outputs. */
  lemma {:induction false} FollowerStaysInStep(before: seq<Event>, events: seq<Event>, l: Listener, m: Mirror)
    requires InStep(before, [], l, m) && Undisturbed(events, l)
    ensures var heard := Due(before, events, l);
            && InStep(before + events, heard, l, m)
            && Run(START, before + events).outputs == LastApplied(before + events)
            && Heard(Run(START, before + events).told, l) == Heard(Run(START, before).told, l) + heard
  {
    RunHolds(before + events, l);
    HearsWhatIsDue(before, events, l);
    Follows(before, events, l, m);
  }

  lemma {:induction false} Follows(before: seq<Event>, events: seq<Event>, l: Listener, m: Mirror)
    requires InStep(before, [], l, m) && Undisturbed(events, l)
    ensures InStep(before + events, Due(before, events, l), l, m)
  {
    if events == [] {
      assert before + events == before;
    } else {
      var front, last := events[..|events| - 1], events[|events| - 1];
      assert last in events && forall e :: e in front ==> e in events;
      Follows(before, front, l, m);
      FollowsOneMore(before + front, Due(before, front, l), last, l, m);
      SplitLast(before, events);
    }
  }

  lemma {:induction false} FollowsOneMore(events: seq<Event>, heard: seq<Notice>, e: Event, l: Listener, m: Mirror)
    requires InStep(events, heard, l, m) && Undisturbed([e], l)
    ensures InStep(events + [e], heard + DueOf(events, e, l), l, m)
  {
    FollowsOneEvent(events, e, l, FollowAll(m, heard));
    FollowConcat(m, heard, DueOf(events, e, l));
  }

  lemma {:induction false} FollowsOneEvent(events: seq<Event>, e: Event, l: Listener, m: Mirror)
    requires Registered(events, l) == 1 && Mirrors(m, LastApplied(events)) && Undisturbed([e], l)
    ensures Registered(events + [e], l) == 1 && Mirrors(FollowAll(m, DueOf(events, e, l)), LastApplied(events + [e]))
  {
    assert e in [e] && (events + [e])[..|events + [e]| - 1] == events;
    if e.Apply? {
      EachOnce(Notices(LastApplied(events), e.config));
      StaysInStep(m, LastApplied(events), e.config);
    }
  }

  /** All the notices of a sequence of configurations, and the outputs the monitor holds after it. */
  function AllNotices(configs: seq<seq<Output>>): seq<Notice> {
    if configs == [] then []
    else AllNotices(configs[..|configs| - 1]) + Notices(Held(configs[..|configs| - 1]), configs[|configs| - 1])
  }

  function Held(configs: seq<seq<Output>>): seq<Output> {
    if configs == [] then [] else Usable(configs[|configs| - 1])
  }

  /** For any sequence of configurations without two outputs of one identity, a listener that starts with nothing and
      follows the notices holds the monitor's outputs, each up to its display area. */
  lemma {:induction false} ListenerMirrors(configs: seq<seq<Output>>)
    requires forall i :: 0 <= i < |configs| ==> UniqueKeys(Usable(configs[i]))
    ensures Mirrors(FollowAll(map[], AllNotices(configs)), Held(configs))
  {
    if configs != [] {
      var front, config := configs[..|configs| - 1], configs[|configs| - 1];
      ListenerMirrors(front);
      FollowConcat(map[], AllNotices(front), Notices(Held(front), config));
      StaysInStep(FollowAll(map[], AllNotices(front)), Held(front), config);
    }
  }

  // ----- what is told and what is held, field by field

  /** A listener in step holds, for each output in use, what can be seen of it, and has the others as out of use. */
  lemma {:induction false} HeldAsItIs(m: Mirror, os: seq<Output>, o: Output)
    requires Mirrors(m, os) && o in os
    ensures (o.cardId, o.id) in m
    ensures var held := m[(o.cardId, o.id)];
            if o.valid && o.used && o.connected && o.powerOn then
              && held.valid && held.used && held.connected && held.powerOn
              && held.extents == o.extents && held.formFactor == o.formFactor && held.orientation == o.orientation
              && held.pixelFormat == o.pixelFormat && held.physicalSize == o.physicalSize && held.scale == o.scale
              && held.kind == o.kind
            else !(held.valid && held.used && held.connected && held.powerOn)
  {
    assert o.Key() == (o.cardId, o.id);
  }

  ghost predicate SameIdentity(a: Output, b: Output) { a.cardId == b.cardId && a.id == b.id }

  ghost predicate InUse(o: Output) { o.valid && o.used && o.connected && o.powerOn }

  ghost predicate LooksDifferent(a: Output, b: Output) {
    || a.extents != b.extents || a.formFactor != b.formFactor || a.orientation != b.orientation
    || a.pixelFormat != b.pixelFormat || a.physicalSize != b.physicalSize || a.scale != b.scale || a.kind != b.kind
  }

  /** An update is told exactly of an output that was there, and of which one of these fields differs, both being in
      use, or its being in use does; a creation exactly of one that was not there, a deletion of one that is no more. */
  lemma {:induction false} ToldExactly(outputs: seq<Output>, config: seq<Output>)
    requires UniqueKeys(outputs)
    ensures forall o, op :: Update(o, op) in Notices(outputs, config) <==>
              && o in config && o.connected && o.valid && op in outputs && SameIdentity(o, op)
              && (InUse(o) != InUse(op) || (InUse(o) && LooksDifferent(o, op)))
    ensures forall o :: Create(o) in Notices(outputs, config) <==>
              && o in config && o.connected && o.valid
              && forall op :: op in outputs ==> !SameIdentity(op, o)
    ensures forall o :: Delete(o) in Notices(outputs, config) <==>
              && o in outputs && forall x :: x in config && x.connected && x.valid ==> !SameIdentity(x, o)
  {
    hide Announcements, Deletions;
    NewsExactly(outputs, Usable(config));
    GoneExactly(outputs, Usable(config));
  }

  lemma {:induction false} FoundAlone(outputs: seq<Output>, o: Output, op: Output)
    requires UniqueKeys(outputs)
    ensures Find(outputs, o) == Some(op) <==> op in outputs && SameIdentity(o, op)
  {
    if op in outputs && SameIdentity(o, op) {
      var i :| 0 <= i < |outputs| && outputs[i] == op;
      var x := Find(outputs, o).value;
      var j :| 0 <= j < |outputs| && outputs[j] == x;
      assert outputs[i].Key() == outputs[j].Key();
    }
  }

  lemma {:induction false} NewsExactly(outputs: seq<Output>, current: seq<Output>)
    requires UniqueKeys(outputs)
    ensures forall n :: n in Announcements(outputs, current) ==> n.Create? || n.Update?
    ensures forall o, op :: Update(o, op) in Announcements(outputs, current) <==>
              && o in current && op in outputs && SameIdentity(o, op)
              && (InUse(o) != InUse(op) || (InUse(o) && LooksDifferent(o, op)))
    ensures forall o :: Create(o) in Announcements(outputs, current) <==>
              o in current && forall op :: op in outputs ==> !SameIdentity(op, o)
  {
    if current != [] {
      var front, last := current[..|current| - 1], current[|current| - 1];
      assert current == front + [last];
      NewsExactly(outputs, front);
      forall op
        ensures Find(outputs, last) == Some(op) <==> op in outputs && SameIdentity(last, op)
      {
        FoundAlone(outputs, last, op);
      }
    }
  }

  lemma {:induction false} GoneExactly(outputs: seq<Output>, current: seq<Output>)
    ensures forall n :: n in Deletions(outputs, current) ==> n.Delete?
    ensures forall o :: Delete(o) in Deletions(outputs, current) <==>
              o in outputs && forall x :: x in current ==> !SameIdentity(x, o)
  {
    if outputs != [] {
      var front, last := outputs[..|outputs| - 1], outputs[|outputs| - 1];
      assert outputs == front + [last];
      GoneExactly(front, current);
    }
  }

  function Subject(n: Notice): Option<Output> {
    match n
    case Create(o) => Some(o)
    case Update(o, _) => Some(o)
    case Delete(o) => Some(o)
    case _ => None
  }

  lemma {:induction false} Bracketed(news: seq<Notice>, gone: seq<Notice>, k: nat)
    requires k < |news| + |gone| + 2
    ensures var ns := [Begin] + news + gone + [End];
            && |ns| == |news| + |gone| + 2
            && ns[k] == if k == 0 then Begin else if k <= |news| then news[k - 1]
                        else if k < |ns| - 1 then gone[k - 1 - |news|] else End
  {
  }

  /** Where the notices of a configuration are. */
  lemma {:induction false} ToldWhere(outputs: seq<Output>, config: seq<Output>, k: nat)
    requires k < |Notices(outputs, config)|
    ensures var ns := Notices(outputs, config);
            var news, gone := Announcements(outputs, Usable(config)), Deletions(outputs, Usable(config));
            && |ns| == |news| + |gone| + 2
            && ns[k] == (if k == 0 then Begin else if k <= |news| then news[k - 1]
                         else if k < |ns| - 1 then gone[k - 1 - |news|] else End)
            && (0 < k <= |news| ==> ns[k].Create? || ns[k].Update?) && (|news| < k < |ns| - 1 ==> ns[k].Delete?)
  {
    hide Announcements, Deletions, Usable;
    var news, gone := Announcements(outputs, Usable(config)), Deletions(outputs, Usable(config));
    NewsOnly(outputs, Usable(config));
    GoneOnly(outputs, Usable(config));
    Bracketed(news, gone, k);
    assert 0 < k <= |news| ==> news[k - 1] in news;
    assert |news| < k <= |news| + |gone| ==> gone[k - 1 - |news|] in gone;
  }

  lemma {:induction false} GoneOnly(outputs: seq<Output>, current: seq<Output>)
    ensures forall n :: n in Deletions(outputs, current) ==> n.Delete?
  {
    if outputs != [] {
      GoneOnly(outputs[..|outputs| - 1], current);
    }
  }

  /** Begin comes first and end last; between them what is new or different, in the order of the configuration, and
      then what is gone, in the order it was held. */
  lemma {:induction false} ToldInOrder(outputs: seq<Output>, config: seq<Output>, i: nat, j: nat)
    requires i < j < |Notices(outputs, config)|
    ensures var ns := Notices(outputs, config);
            && (ns[i].Begin? <==> i == 0) && !ns[j].Begin? && (ns[j].End? <==> j == |ns| - 1) && !ns[i].End?
            && (ns[i].Delete? ==> ns[j].Delete? || ns[j].End?)
            && ((ns[i].Create? || ns[i].Update?) && (ns[j].Create? || ns[j].Update?) ==>
                  InThatOrder(config, Subject(ns[i]), Subject(ns[j])))
            && (ns[i].Delete? && ns[j].Delete? ==> InThatOrder(outputs, Subject(ns[i]), Subject(ns[j])))
  {
    hide Notices, Announcements, Deletions, Usable;
    ToldWhere(outputs, config, i);
    ToldWhere(outputs, config, j);
    var news := |Announcements(outputs, Usable(config))|;
    if 0 < i && j <= news {
      NewsInOrder(outputs, config, i - 1, j - 1);
    } else if news < i && j < |Notices(outputs, config)| - 1 {
      GoneInOrder(outputs, Usable(config), i - 1 - news, j - 1 - news);
    }
  }

  ghost predicate InThatOrder(os: seq<Output>, x: Option<Output>, y: Option<Output>) {
    exists a, b :: 0 <= a < b < |os| && x == Some(os[a]) && y == Some(os[b])
  }

  lemma {:induction false} NewsInOrder(outputs: seq<Output>, config: seq<Output>, i: nat, j: nat)
    requires i < j < |Announcements(outputs, Usable(config))|
    ensures var news := Announcements(outputs, Usable(config));
            InThatOrder(config, Subject(news[i]), Subject(news[j]))
  {
    hide Announcements, Usable;
    var a, b := NewsApart(outputs, Usable(config), i, j);
    var c, d := UsableApart(config, a, b);
  }

  lemma {:induction false} GoneFrom(outputs: seq<Output>, current: seq<Output>, i: nat) returns (a: nat)
    requires i < |Deletions(outputs, current)|
    ensures a < |outputs| && Subject(Deletions(outputs, current)[i]) == Some(outputs[a])
    ensures |Deletions(outputs[..a], current)| == i
  {
    var front := outputs[..|outputs| - 1];
    if i < |Deletions(front, current)| {
      a := GoneFrom(front, current, i);
      assert front[..a] == outputs[..a];
    } else {
      a := |outputs| - 1;
    }
  }

  lemma {:induction false} GoneGrow(outputs: seq<Output>, current: seq<Output>, b: nat, a: nat)
    requires b <= a <= |outputs|
    ensures |Deletions(outputs[..b], current)| <= |Deletions(outputs[..a], current)|
  {
    if b < a {
      GoneGrow(outputs, current, b, a - 1);
      assert outputs[..a][..a - 1] == outputs[..a - 1];
    }
  }

  lemma {:induction false} GoneInOrder(outputs: seq<Output>, current: seq<Output>, i: nat, j: nat)
    requires i < j < |Deletions(outputs, current)|
    ensures InThatOrder(outputs, Subject(Deletions(outputs, current)[i]), Subject(Deletions(outputs, current)[j]))
  {
    hide Deletions;
    var a := GoneFrom(outputs, current, i);
    var b := GoneFrom(outputs, current, j);
    if b <= a {
      GoneGrow(outputs, current, b, a);
    }
  }

  lemma {:induction false} NewsOnly(outputs: seq<Output>, current: seq<Output>)
    ensures forall n :: n in Announcements(outputs, current) ==> n.Create? || n.Update?
  {
    if current != [] {
      NewsOnly(outputs, current[..|current| - 1]);
    }
  }

  lemma {:induction false} NewsFrom(outputs: seq<Output>, current: seq<Output>, i: nat) returns (a: nat)
    requires i < |Announcements(outputs, current)|
    ensures a < |current| && Subject(Announcements(outputs, current)[i]) == Some(current[a])
    ensures |Announcements(outputs, current[..a])| == i
  {
    var front, last := current[..|current| - 1], current[|current| - 1];
    if i < |Announcements(outputs, front)| {
      a := NewsFrom(outputs, front, i);
      assert front[..a] == current[..a];
    } else {
      a := |current| - 1;
    }
  }

  lemma {:induction false} NewsGrow(outputs: seq<Output>, current: seq<Output>, b: nat, a: nat)
    requires b <= a <= |current|
    ensures |Announcements(outputs, current[..b])| <= |Announcements(outputs, current[..a])|
  {
    if b < a {
      NewsGrow(outputs, current, b, a - 1);
      assert current[..a][..a - 1] == current[..a - 1];
    }
  }

  lemma {:induction false} NewsApart(outputs: seq<Output>, current: seq<Output>, i: nat, j: nat)
    returns (a: nat, b: nat)
    requires i < j < |Announcements(outputs, current)|
    ensures a < b < |current|
    ensures Subject(Announcements(outputs, current)[i]) == Some(current[a])
    ensures Subject(Announcements(outputs, current)[j]) == Some(current[b])
  {
    a := NewsFrom(outputs, current, i);
    b := NewsFrom(outputs, current, j);
    if b <= a {
      NewsGrow(outputs, current, b, a);
    }
  }

  lemma {:induction false} UsableFrom(config: seq<Output>, i: nat) returns (a: nat)
    requires i < |Usable(config)|
    ensures a < |config| && Usable(config)[i] == config[a] && |Usable(config[..a])| == i
  {
    var front := config[..|config| - 1];
    if i < |Usable(front)| {
      a := UsableFrom(front, i);
      assert front[..a] == config[..a];
    } else {
      a := |config| - 1;
    }
  }

  lemma {:induction false} UsableOneMore(config: seq<Output>)
    requires config != []
    ensures |Usable(config[..|config| - 1])| <= |Usable(config)|
  {
  }

  lemma {:induction false} UsableGrow(config: seq<Output>, b: nat, a: nat)
    requires b <= a <= |config|
    ensures |Usable(config[..b])| <= |Usable(config[..a])|
  {
    hide Usable;
    if b < a {
      UsableGrow(config, b, a - 1);
      assert config[..a][..a - 1] == config[..a - 1];
      UsableOneMore(config[..a]);
    }
  }

  lemma {:induction false} UsableApart(config: seq<Output>, i: nat, j: nat) returns (a: nat, b: nat)
    requires i < j < |Usable(config)|
    ensures a < b < |config| && Usable(config)[i] == config[a] && Usable(config)[j] == config[b]
  {
    a := UsableFrom(config, i);
    b := UsableFrom(config, j);
    if b <= a {
      UsableGrow(config, b, a);
    }
  }
}
