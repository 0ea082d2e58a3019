/** The tiling policy's own record of the displays (miral-shell/tiling_window_manager.cpp:650-685), kept from the
    monitor's notices by rectangle rather than by output. */
module LiveDisplays {
  import opened Sequences
  import opened Geometry
  import opened ActiveOutputs

  type Rectangles = multiset<Rectangle>

  /** advise_output_create, _update and _delete. */
  function Note(live: Rectangles, n: Notice): Rectangles {
    match n
    case Create(o) => live + multiset{o.extents}
    case Update(updated, original) =>
      if EquivalentDisplayArea(updated, original) then live
      else live - multiset{original.extents} + multiset{updated.extents}
    case Delete(o) => live - multiset{o.extents}
    case _ => live
  }

  function NoteAll(live: Rectangles, notices: seq<Notice>): Rectangles {
    if notices == [] then live
    else Note(NoteAll(live, notices[..|notices| - 1]), notices[|notices| - 1])
  }

  function Extents(os: seq<Output>): Rectangles {
    if os == [] then multiset{} else Extents(os[..|os| - 1]) + multiset{os[|os| - 1].extents}
  }

  function KeysOf(os: seq<Output>): set<Key> {
    set o | o in os :: o.Key()
  }

  /** The extents of the outputs with other keys. */
  function ExtentsBut(os: seq<Output>, keys: set<Key>): Rectangles {
    if os == [] then multiset{}
    else ExtentsBut(os[..|os| - 1], keys) +
         if os[|os| - 1].Key() in keys then multiset{} else multiset{os[|os| - 1].extents}
  }

  /** The extents of the outputs kept silently: as the monitor had them, and as they are now. */
  function SilentBefore(outputs: seq<Output>, current: seq<Output>): Rectangles {
    if current == [] then multiset{}
    else
      var o := current[|current| - 1];
      SilentBefore(outputs, current[..|current| - 1]) + SilentPart(outputs, o)
  }

  function SilentNow(outputs: seq<Output>, current: seq<Output>): Rectangles {
    if current == [] then multiset{}
    else
      var o := current[|current| - 1];
      SilentNow(outputs, current[..|current| - 1]) + if Silent(outputs, o) then multiset{o.extents} else multiset{}
  }

  /** The extents of the outputs that are announced. */
  function Loud(outputs: seq<Output>, current: seq<Output>): Rectangles {
    if current == [] then multiset{}
    else
      var o := current[|current| - 1];
      Loud(outputs, current[..|current| - 1]) + LoudPart(outputs, o)
  }

  lemma {:induction false} NoteConcat(live: Rectangles, a: seq<Notice>, b: seq<Notice>)
    ensures NoteAll(live, a + b) == NoteAll(NoteAll(live, a), b)
  {
    if b == [] {
      assert a + b == a;
    } else {
      assert (a + b)[..|a + b| - 1] == a + b[..|b| - 1];
      NoteConcat(live, a, b[..|b| - 1]);
    }
  }

  lemma {:induction false} NoteOne(live: Rectangles, notices: seq<Notice>)
    requires |notices| <= 1
    ensures NoteAll(live, notices) == if notices == [] then live else Note(live, notices[0])
  {
  }

  lemma {:induction false} ExtentsButAnother(os: seq<Output>, keys: set<Key>, k: Key)
    requires k !in KeysOf(os)
    ensures ExtentsBut(os, keys + {k}) == ExtentsBut(os, keys)
  {
    if os != [] {
      assert os[|os| - 1] in os;
      assert k !in KeysOf(os[..|os| - 1]);
      ExtentsButAnother(os[..|os| - 1], keys, k);
    }
  }

  /** One more key leaves out one more rectangle. */
  lemma {:induction false} ExtentsButOne(os: seq<Output>, keys: set<Key>, o: Output)
    requires UniqueKeys(os) && o in os && o.Key() !in keys
    ensures ExtentsBut(os, keys) == ExtentsBut(os, keys + {o.Key()}) + multiset{o.extents}
  {
    var front, last := os[..|os| - 1], os[|os| - 1];
    assert os == front + [last];
    NewKey(front, last);
    if last == o {
      ExtentsButAnother(front, keys, o.Key());
    } else {
      assert o in front;
      ExtentsButOne(front, keys, o);
    }
  }

  lemma {:induction false} ExtentsButAll(os: seq<Output>, keys: set<Key>)
    requires KeysOf(os) <= keys
    ensures ExtentsBut(os, keys) == multiset{}
  {
    if os != [] {
      assert os[|os| - 1] in os;
      ExtentsButAll(os[..|os| - 1], keys);
    }
  }

  lemma {:induction false} ExtentsButNone(os: seq<Output>)
    ensures ExtentsBut(os, {}) == Extents(os)
  {
    if os != [] {
      ExtentsButNone(os[..|os| - 1]);
    }
  }

  lemma {:induction false} KeysGrow(front: seq<Output>, o: Output)
    ensures KeysOf(front + [o]) == KeysOf(front) + {o.Key()}
  {
    forall k
      ensures k in KeysOf(front + [o]) <==> k in KeysOf(front) + {o.Key()}
    {
      assert forall x :: x in front + [o] <==> x in front || x == o;
    }
  }

  lemma {:induction false} TakeOut(rest: Rectangles, r: Rectangle, a: Rectangles)
    ensures rest + multiset{r} + a - multiset{r} == rest + a
  {
  }

  lemma {:induction false} Replace(rest: Rectangles, r: Rectangle, a: Rectangles, b: Rectangles, x: Rectangle)
    ensures rest + multiset{r} + a + b - multiset{r} + multiset{x} == rest + a + (b + multiset{x})
  {
    assert rest + multiset{r} + a + b == rest + multiset{r} + (a + b);
    TakeOut(rest, r, a + b);
  }

  lemma {:induction false} Shuffle(rest: Rectangles, r: Rectangle, a: Rectangles, b: Rectangles)
    ensures rest + multiset{r} + a + b == rest + (a + multiset{r}) + b
    ensures rest + a + b + multiset{r} == rest + a + (b + multiset{r})
    ensures a + multiset{} == a
  {
  }

  function SilentPart(outputs: seq<Output>, o: Output): Rectangles {
    if Silent(outputs, o) then multiset{Find(outputs, o).value.extents} else multiset{}
  }

  function LoudPart(outputs: seq<Output>, o: Output): Rectangles {
    if Silent(outputs, o) then multiset{} else multiset{o.extents}
  }

  /** What one announcement does to a record made up of what was not met yet, what was kept silently as it was, and
      what was announced. */
  lemma {:induction false} AfterOneAnnouncement(
      outputs: seq<Output>, keys: set<Key>, o: Output, before: Rectangles, loud: Rectangles)
    requires UniqueKeys(outputs) && o.Key() !in keys
    ensures NoteAll(ExtentsBut(outputs, keys) + before + loud, Announce(outputs, o)) ==
            ExtentsBut(outputs, keys + {o.Key()}) + (before + SilentPart(outputs, o)) + (loud + LoudPart(outputs, o))
  {
    var op, rest := Find(outputs, o), ExtentsBut(outputs, keys + {o.Key()});
    if op.None? {
      KeyFound(outputs, o);
      ExtentsButAnother(outputs, keys, o.Key());
      AfterCreate(outputs, rest, o, before, loud);
    } else {
      ExtentsButOne(outputs, keys, op.value);
      AfterUpdate(outputs, rest, o, before, loud);
    }
  }

  lemma {:induction false} AfterCreate(
      outputs: seq<Output>, rest: Rectangles, o: Output, before: Rectangles, loud: Rectangles)
    requires Find(outputs, o).None?
    ensures NoteAll(rest + before + loud, Announce(outputs, o)) ==
            rest + (before + SilentPart(outputs, o)) + (loud + LoudPart(outputs, o))
  {
    NoteOne(rest + before + loud, Announce(outputs, o));
    Shuffle(rest, o.extents, before, loud);
  }

  lemma {:induction false} AfterUpdate(
      outputs: seq<Output>, rest: Rectangles, o: Output, before: Rectangles, loud: Rectangles)
    requires Find(outputs, o).Some?
    ensures NoteAll(rest + multiset{Find(outputs, o).value.extents} + before + loud, Announce(outputs, o)) ==
            rest + (before + SilentPart(outputs, o)) + (loud + LoudPart(outputs, o))
  {
    var was := Find(outputs, o).value.extents;
    NoteOne(rest + multiset{was} + before + loud, Announce(outputs, o));
    MetBefore(rest, was, before, loud, o.extents);
  }

  lemma {:induction false} MetBefore(
      rest: Rectangles, was: Rectangle, before: Rectangles, loud: Rectangles, now: Rectangle)
    ensures rest + multiset{was} + before + loud - multiset{was} + multiset{now} ==
            rest + (before + multiset{}) + (loud + multiset{now})
    ensures rest + multiset{was} + before + loud == rest + (before + multiset{was}) + (loud + multiset{})
  {
    Replace(rest, was, before, loud, now);
    Shuffle(rest, was, before, loud);
    Shuffle(rest, was, loud, before);
  }

  lemma {:induction false} AfterAnnouncements(outputs: seq<Output>, current: seq<Output>, excess: Rectangles)
    requires UniqueKeys(outputs) && UniqueKeys(current)
    ensures NoteAll(Extents(outputs) + excess, Announcements(outputs, current)) ==
            ExtentsBut(outputs, KeysOf(current)) + (excess + SilentBefore(outputs, current)) + Loud(outputs, current)
  {
    if current == [] {
      assert KeysOf(current) == {};
      ExtentsButNone(outputs);
      Nothing(excess);
      Nothing(Extents(outputs) + excess);
    } else {
      var front, o := current[..|current| - 1], current[|current| - 1];
      assert current == front + [o];
      AfterAnnouncements(outputs, front, excess);
      KeysGrow(front, o);
      NewKey(front, o);
      NoteConcat(Extents(outputs) + excess, Announcements(outputs, front), Announce(outputs, o));
      AfterOneAnnouncement(outputs, KeysOf(front), o, excess + SilentBefore(outputs, front), Loud(outputs, front));
      Regroup(excess, SilentBefore(outputs, front), SilentPart(outputs, o));
    }
  }

  lemma {:induction false} Nothing(a: Rectangles)
    ensures a + multiset{} == a
  {
  }

  lemma {:induction false} Regroup(a: Rectangles, b: Rectangles, c: Rectangles)
    ensures (a + b) + c == a + (b + c)
  {
  }

  lemma {:induction false} AfterOneDeletion(
      outputs: seq<Output>, front: seq<Output>, o: Output, current: seq<Output>, rest: Rectangles)
    requires UniqueKeys(outputs) && front + [o] <= outputs
    ensures var keys := KeysOf(current) + KeysOf(front);
            NoteAll(ExtentsBut(outputs, keys) + rest, if Find(current, o).None? then [Delete(o)] else []) ==
            ExtentsBut(outputs, keys + {o.Key()}) + rest
  {
    var keys := KeysOf(current) + KeysOf(front);
    NoteOne(ExtentsBut(outputs, keys) + rest, if Find(current, o).None? then [Delete(o)] else []);
    KeyFound(current, o);
    if Find(current, o).None? {
      KeyNotBefore(outputs, front, o);
      assert outputs[|front|] == (front + [o])[|front|] == o;
      ExtentsButOne(outputs, keys, o);
      TakeOut(ExtentsBut(outputs, keys + {o.Key()}), o.extents, rest);
    } else {
      assert keys + {o.Key()} == keys;
    }
  }

  lemma {:induction false} AfterDeletions(
      outputs: seq<Output>, gone: seq<Output>, current: seq<Output>, rest: Rectangles)
    requires UniqueKeys(outputs) && gone <= outputs
    ensures NoteAll(ExtentsBut(outputs, KeysOf(current)) + rest, Deletions(gone, current)) ==
            ExtentsBut(outputs, KeysOf(current) + KeysOf(gone)) + rest
  {
    if gone == [] {
      assert KeysOf(current) + KeysOf(gone) == KeysOf(current);
    } else {
      var front, o := gone[..|gone| - 1], gone[|gone| - 1];
      assert gone == front + [o];
      AfterDeletions(outputs, front, current, rest);
      KeysGrow(front, o);
      NoteConcat(ExtentsBut(outputs, KeysOf(current)) + rest, Deletions(front, current),
                 if Find(current, o).None? then [Delete(o)] else []);
      AfterOneDeletion(outputs, front, o, current, rest);
      assert KeysOf(current) + KeysOf(front) + {o.Key()} == KeysOf(current) + KeysOf(gone);
    }
  }

  lemma {:induction false} KeyFound(current: seq<Output>, o: Output)
    ensures Find(current, o).Some? <==> o.Key() in KeysOf(current)
  {
    FoundIffHas(current, o);
  }

  lemma {:induction false} KeyNotBefore(outputs: seq<Output>, front: seq<Output>, o: Output)
    requires UniqueKeys(outputs) && front + [o] <= outputs
    ensures o.Key() !in KeysOf(front)
  {
    assert UniqueKeys(front + [o]) by {
      assert forall i :: 0 <= i < |front + [o]| ==> (front + [o])[i] == outputs[i];
    }
    NewKey(front, o);
  }

  lemma {:induction false} SilentOrLoud(outputs: seq<Output>, current: seq<Output>)
    ensures Extents(current) == SilentNow(outputs, current) + Loud(outputs, current)
  {
    if current != [] {
      SilentOrLoud(outputs, current[..|current| - 1]);
    }
  }

  /** If the policy's rectangles were those of the monitor's outputs, and some in excess, before a configuration, they
      are so after it, with the same excess, exactly when the outputs about which nothing was said have, taken
      together, the extents they had. */
  lemma {:induction false} ExcessStays(outputs: seq<Output>, config: seq<Output>, excess: Rectangles)
    requires UniqueKeys(outputs) && UniqueKeys(Usable(config))
    ensures NoteAll(Extents(outputs) + excess, Notices(outputs, config)) == Extents(Usable(config)) + excess <==>
            SilentBefore(outputs, Usable(config)) == SilentNow(outputs, Usable(config))
  {
    var current := Usable(config);
    AllNoted(outputs, config, excess);
    SilentOrLoud(outputs, current);
    var before, now, loud := SilentBefore(outputs, current), SilentNow(outputs, current), Loud(outputs, current);
    Regrouped(excess, before, loud);
    Regrouped(excess, now, loud);
    SameRest(before, now, loud + excess);
  }

  lemma {:induction false} Regrouped(excess: Rectangles, a: Rectangles, b: Rectangles)
    ensures excess + a + b == a + (b + excess) && (a + b) + excess == a + (b + excess)
  {
  }

  /** Without an excess: the policy's displays, right before a configuration, are right after it under that
      condition. */
  lemma {:induction false} LiveDisplaysFollow(outputs: seq<Output>, config: seq<Output>)
    requires UniqueKeys(outputs) && UniqueKeys(Usable(config))
    ensures NoteAll(Extents(outputs), Notices(outputs, config)) == Extents(Usable(config)) <==>
            SilentBefore(outputs, Usable(config)) == SilentNow(outputs, Usable(config))
  {
    ExcessStays(outputs, config, multiset{});
    Nothing(Extents(outputs));
    Nothing(Extents(Usable(config)));
  }

  lemma {:induction false} NotedInTwoParts(live: Rectangles, outputs: seq<Output>, config: seq<Output>)
    ensures NoteAll(live, Notices(outputs, config)) ==
            NoteAll(NoteAll(live, Announcements(outputs, Usable(config))), Deletions(outputs, Usable(config)))
  {
    var news, gone := Announcements(outputs, Usable(config)), Deletions(outputs, Usable(config));
    NoteConcat(live, [Begin] + news + gone, [End]);
    NoteConcat(live, [Begin] + news, gone);
    NoteConcat(live, [Begin], news);
    NoteOne(live, [Begin]);
    NoteOne(NoteAll(live, [Begin] + news + gone), [End]);
  }

  /** What is on record afterwards: the extents that were there of what went unannounced, and the rest as it is. */
  lemma {:induction false} AllNoted(outputs: seq<Output>, config: seq<Output>, excess: Rectangles)
    requires UniqueKeys(outputs) && UniqueKeys(Usable(config))
    ensures NoteAll(Extents(outputs) + excess, Notices(outputs, config)) ==
            excess + SilentBefore(outputs, Usable(config)) + Loud(outputs, Usable(config))
  {
    var current := Usable(config);
    var rest := excess + SilentBefore(outputs, current) + Loud(outputs, current);
    NotedInTwoParts(Extents(outputs) + excess, outputs, config);
    AfterAnnouncements(outputs, current, excess);
    Regroup(ExtentsBut(outputs, KeysOf(current)), excess + SilentBefore(outputs, current), Loud(outputs, current));
    AfterDeletions(outputs, outputs, current, rest);
    ExtentsButAll(outputs, KeysOf(current) + KeysOf(outputs));
  }

  lemma {:induction false} SameRest(a: Rectangles, b: Rectangles, rest: Rectangles)
    ensures a + rest == b + rest <==> a == b
  {
    if a + rest == b + rest {
      forall r
        ensures a[r] == b[r]
      {
        assert (a + rest)[r] == (b + rest)[r];
      }
    }
  }

  /** An output in use cannot change its extents silently, so the record is right as long as no output changes its
      extents while it is off. */
  lemma {:induction false} OnlyWhileOff(outputs: seq<Output>, current: seq<Output>)
    requires forall o :: o in current && Silent(outputs, o) && o.Bad() ==> o.extents == Find(outputs, o).value.extents
    ensures SilentBefore(outputs, current) == SilentNow(outputs, current)
  {
    if current != [] {
      var front, o := current[..|current| - 1], current[|current| - 1];
      assert current == front + [o] && o in current;
      OnlyWhileOff(outputs, front);
    }
  }

  /** After these configurations the policy has the displays' rectangles on record, and some in excess. */
  ghost predicate OnRecord(configs: seq<seq<Output>>, excess: Rectangles) {
    UniqueKeys(Held(configs)) && NoteAll(multiset{}, AllNotices(configs)) == Extents(Held(configs)) + excess
  }

  /** An output that is switched off, given another mode, and switched on again. */
  function OffAndOn(o: Output, mode: Rectangle): seq<seq<Output>> {
    [[o.(powerOn := false)], [o.(powerOn := false, extents := mode)], [o.(extents := mode)]]
  }

  /** Its first extents are on record beside the present ones. */
  lemma {:induction false} StaleRectangle(o: Output, mode: Rectangle)
    requires o.connected && o.valid && o.used && o.powerOn && mode != o.extents
    ensures Held(OffAndOn(o, mode)) == [o.(extents := mode)] && OnRecord(OffAndOn(o, mode), multiset{o.extents})
  {
    var off, changed, on := o.(powerOn := false), o.(powerOn := false, extents := mode), o.(extents := mode);
    ChangedWhileOff(off, changed);
    NextConfiguration(multiset{}, [[off], [changed]], [changed], on);
    assert [[off], [changed]] + [[on]] == OffAndOn(o, mode);
    SwitchedOn(changed, on);
    StaleAtLast(o.extents, mode, on);
  }

  lemma {:induction false} SwitchedOn(off: Output, on: Output)
    requires off.Key() == on.Key() && off.Bad() && !on.Bad()
    ensures Announce([off], on) == [Update(on, off)]
  {
  }

  /** A configuration that changes no extents silently. */
  ghost predicate NothingSilent(configs: seq<seq<Output>>, config: seq<Output>) {
    var before, current := Held(configs), Usable(config);
    UniqueKeys(current) && SilentBefore(before, current) == SilentNow(before, current)
  }

  ghost predicate NoMoreSilence(configs: seq<seq<Output>>, more: seq<seq<Output>>)
    decreases |more|
  {
    more != [] ==>
      NoMoreSilence(configs, more[..|more| - 1]) && NothingSilent(configs + more[..|more| - 1], more[|more| - 1])
  }

  lemma {:induction false} ExcessStaysOnce(configs: seq<seq<Output>>, config: seq<Output>, excess: Rectangles)
    requires OnRecord(configs, excess) && NothingSilent(configs, config)
    ensures OnRecord(configs + [config], excess)
  {
    AllNoticesGrow(configs, config);
    NoteConcat(multiset{}, AllNotices(configs), Notices(Held(configs), config));
    ExcessStays(Held(configs), config, excess);
  }

  /** An excess stays through any such configurations. */
  lemma {:induction false} ExcessStaysThroughout(configs: seq<seq<Output>>, more: seq<seq<Output>>, excess: Rectangles)
    requires OnRecord(configs, excess) && NoMoreSilence(configs, more)
    ensures OnRecord(configs + more, excess)
    decreases |more|
  {
    if more == [] {
      assert configs + more == configs;
    } else {
      ExcessStaysThroughout(configs, more[..|more| - 1], excess);
      SplitLast(configs, more);
      ExcessStaysOnce(configs + more[..|more| - 1], more[|more| - 1], excess);
    }
  }

  /** So the first extents stay on record for good. */
  lemma {:induction false} StaleForGood(o: Output, mode: Rectangle, more: seq<seq<Output>>)
    requires o.connected && o.valid && o.used && o.powerOn && mode != o.extents
    requires NoMoreSilence(OffAndOn(o, mode), more)
    ensures OnRecord(OffAndOn(o, mode) + more, multiset{o.extents})
  {
    StaleRectangle(o, mode);
    ExcessStaysThroughout(OffAndOn(o, mode), more, multiset{o.extents});
  }

  /** Of an output that is off from the start only the first extents are told. */
  lemma {:induction false} ChangedWhileOff(off: Output, changed: Output)
    requires off.connected && off.valid && changed.connected && changed.valid
    requires !off.powerOn && !changed.powerOn && off.Key() == changed.Key()
    ensures NoteAll(multiset{}, AllNotices([[off], [changed]])) == multiset{} + multiset{off.extents}
    ensures Held([[off], [changed]]) == [changed]
  {
    FirstConfiguration(off);
    NextConfiguration(multiset{}, [[off]], [off], changed);
    assert [[off]] + [[changed]] == [[off], [changed]];
    assert Announce([off], changed) == [];
  }

  lemma {:induction false} FirstConfiguration(o: Output)
    requires o.connected && o.valid
    ensures NoteAll(multiset{}, AllNotices([[o]])) == multiset{} + multiset{o.extents}
    ensures Held([[o]]) == [o]
  {
    var none: seq<seq<Output>> := [];
    NextConfiguration(multiset{}, none, [], o);
    assert none + [[o]] == [[o]];
  }

  lemma {:induction false} StaleAtLast(first: Rectangle, mode: Rectangle, on: Output)
    requires first != mode && on.extents == mode
    ensures multiset{} + multiset{first} - multiset{mode} + multiset{mode} == Extents([on]) + multiset{first}
  {
    assert [on][..0] == [] && Extents([on]) == multiset{mode};
  }

  lemma {:induction false} AllNoticesGrow(configs: seq<seq<Output>>, config: seq<Output>)
    ensures AllNotices(configs + [config]) == AllNotices(configs) + Notices(Held(configs), config)
    ensures Held(configs + [config]) == Usable(config)
  {
    assert (configs + [config])[..|configs + [config]| - 1] == configs;
  }

  /** One more configuration, of one output that is the only one there was, if any. */
  lemma {:induction false} NextConfiguration(live: Rectangles, configs: seq<seq<Output>>, held: seq<Output>, o: Output)
    requires o.connected && o.valid && Held(configs) == held
    requires |held| <= 1 && (|held| == 1 ==> held[0].Key() == o.Key())
    ensures Held(configs + [[o]]) == [o]
    ensures var told := NoteAll(live, AllNotices(configs)); var news := Announce(held, o);
            NoteAll(live, AllNotices(configs + [[o]])) == if news == [] then told else Note(told, news[0])
  {
    UsableOne(o);
    AllNoticesGrow(configs, [o]);
    NoticesOfOne(held, o);
    NoteConcat(live, AllNotices(configs), Notices(held, [o]));
    NoteBracketed(NoteAll(live, AllNotices(configs)), Announce(held, o));
  }

  lemma {:induction false} NoteBracketed(live: Rectangles, news: seq<Notice>)
    requires |news| <= 1
    ensures NoteAll(live, [Begin] + news + [End]) == if news == [] then live else Note(live, news[0])
  {
    NoteConcat(live, [Begin] + news, [End]);
    NoteConcat(live, [Begin], news);
    NoteOne(live, [Begin]);
    NoteOne(live, news);
    NoteOne(NoteAll(live, news), [End]);
  }

  lemma {:induction false} UsableOne(o: Output)
    requires o.connected && o.valid
    ensures Usable([o]) == [o]
  {
    assert [o][..0] == [];
  }

  lemma {:induction false} NoticesOfOne(outputs: seq<Output>, o: Output)
    requires o.connected && o.valid && |outputs| <= 1 && (|outputs| == 1 ==> outputs[0].Key() == o.Key())
    ensures Notices(outputs, [o]) == [Begin] + Announce(outputs, o) + [End]
  {
    UsableOne(o);
    assert [o][..0] == [] && Announcements(outputs, [o]) == [] + Announce(outputs, o) == Announce(outputs, o);
    if |outputs| == 1 {
      assert outputs[..0] == [];
      assert Deletions(outputs, [o]) == Deletions([], [o]) + [] == [];
    }
  }
}
