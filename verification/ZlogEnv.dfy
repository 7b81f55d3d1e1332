/**
 The environment of zlog: init, reload, fini and logging under the one rwlock, so that a call is
 one step, and the per-thread state that follows the configuration by its version.
 */
module ZlogEnv {
  import opened Text
  import opened ZlogBuf
  import opened ZlogRule
  import opened ZlogCategory
  import opened ZlogCategoryTable

  /** What zlog_conf_new builds and the environment uses. */
  datatype Conf = Conf(rules: Rules, bufSizeMin: nat, bufSizeMax: nat, timeCacheCount: nat)

  /** zlog_buf_new refuses other sizes. */
  predicate BufSizesOk(c: Conf) { c.bufSizeMin > 0 && (c.bufSizeMax != 0 ==> c.bufSizeMin <= c.bufSizeMax) }

  function MsgMarker(): Bytes { [DOT, DOT, DOT, NEWLINE] }

  /** Per-thread state: only what the configuration determines. */
  class Thread {
    var initVersion: nat
    var preMsgBuf: Buf
    var msgBuf: Buf
    var timeCacheCount: nat

    constructor (version: nat, pre: Buf, msg: Buf, count: nat)
      ensures initVersion == version && preMsgBuf == pre && msgBuf == msg && timeCacheCount == count
    {
      initVersion, preMsgBuf, msgBuf, timeCacheCount := version, pre, msg, count;
    }

    /** Both buffers have the limits of c and the marker "...\n", and the event caches as many times as c asks for. */
    predicate Fits(c: Conf)
      reads this
    {
      && msgBuf.sizeMin == c.bufSizeMin && msgBuf.sizeMax == c.bufSizeMax
      && preMsgBuf.sizeMin == c.bufSizeMin && preMsgBuf.sizeMax == c.bufSizeMax
      && msgBuf.truncateStr == [46, 46, 46, 10] && preMsgBuf.truncateStr == [46, 46, 46, 10]
      && timeCacheCount == c.timeCacheCount
    }

    /** zlog_thread_rebuild_msg_buf: it looks at msg_buf alone. */
    method RebuildMsgBuf(c: Conf, ghost was: Conf) returns (rc: int)
      requires Fits(was)
      modifies this`preMsgBuf, this`msgBuf
      ensures rc == 0 ==> Fits(Conf(c.rules, c.bufSizeMin, c.bufSizeMax, was.timeCacheCount))
      ensures rc != 0 ==> rc == -1 && !BufSizesOk(c) && Fits(was)
    {
      if msgBuf.sizeMin == c.bufSizeMin && msgBuf.sizeMax == c.bufSizeMax {
        return 0;
      }
      var pre := Buf.Create(c.bufSizeMin, c.bufSizeMax, MsgMarker());
      if pre == null {
        return -1;
      }
      var msg := Buf.Create(c.bufSizeMin, c.bufSizeMax, MsgMarker());
      if msg == null {
        return -1;
      }
      preMsgBuf := pre;
      msgBuf := msg;
      return 0;
    }

    method RebuildEvent(count: nat)
      modifies this`timeCacheCount
      ensures timeCacheCount == count
    {
      timeCacheCount := count;
    }
  }

  /** zlog_thread_new. */
  method NewThread(version: nat, c: Conf) returns (t: Thread?)
    ensures t == null <==> !BufSizesOk(c)
    ensures t != null ==> fresh(t) && t.initVersion == version && t.Fits(c)
  {
    var pre := Buf.Create(c.bufSizeMin, c.bufSizeMax, MsgMarker());
    if pre == null {
      return null;
    }
    var msg := Buf.Create(c.bufSizeMin, c.bufSizeMax, MsgMarker());
    if msg == null {
      return null;
    }
    t := new Thread(version, pre, msg, c.timeCacheCount);
  }

  /** The file a reload is asked for; the automatic one only if its counter is due. */
  datatype Request = Reread | Automatic(due: bool)

  class Env {
    var conf: Option<Conf>
    var categories: CategoryTable?
    var isInit: bool
    var initVersion: nat
    var threads: map<nat, Thread>
    /** Which configuration each version stood for. */
    ghost var configured: map<nat, Conf>

    constructor ()
      ensures Valid() && !isInit && initVersion == 0 && threads == map[] && configured == map[]
    {
      conf, categories, isInit, initVersion := None, null, false, 0;
      threads, configured := map[], map[];
    }

    ghost function Members(): set<Category>
      reads this, categories
    {
      if categories == null then {} else set c | c in categories.categories
    }

    ghost function Footprint(): set<object>
      reads this, categories
    {
      var own: set<object> := set id | id in threads :: threads[id];
      var table: set<object> := if categories == null then {} else {categories};
      own + table + Members()
    }

    /** In every reachable state: the table is settled under the current rules, versions stand for
        one configuration each, and every thread fits the configuration of its version. */
    ghost predicate Valid()
      reads this, categories, Footprint()
    {
      && (isInit <==> conf.Some?) && (isInit <==> categories != null)
      && (isInit ==> Usable(conf.value.rules) && categories.Settled(conf.value.rules))
      && (isInit ==> initVersion in configured && configured[initVersion] == conf.value)
      && (forall v | v in configured :: v <= initVersion)
      && (forall id | id in threads ::
            threads[id].initVersion in configured && threads[id].Fits(configured[threads[id].initVersion]))
      && (forall i, j | i in threads && j in threads && threads[i] == threads[j] :: i == j)
    }

    /** zlog_init: built is the configuration zlog_conf_new returns, if any. */
    method Init(built: Option<Conf>) returns (rc: int)
      requires Valid() && (built.Some? ==> Usable(built.value.rules))
      modifies this
      ensures Valid() && threads == old(threads)
      ensures rc == 0 <==> !old(isInit) && built.Some?
      ensures rc == 0 ==> isInit && conf == built && fresh(categories) && categories.categories == []
      ensures fresh(Footprint() - old(Footprint())) && initVersion >= old(initVersion)
      ensures rc == 0 ==> initVersion !in old(configured) && configured == old(configured)[initVersion := built.value]
      ensures rc != 0 ==> isInit == old(isInit) && conf == old(conf)
      ensures rc != 0 ==> categories == old(categories) && configured == old(configured)
      ensures rc != 0 && old(initVersion) != 0 ==> initVersion == old(initVersion)
    {
      hide FitRules, Agrees, Usable, Thread.Fits;
      if isInit {
        return -1;
      }
      if initVersion == 0 {
        initVersion := initVersion + 1;
      }
      conf := built;
      if conf == None {
        FiniInner();
        return -1;
      }
      categories := new CategoryTable();
      isInit := true;
      initVersion := initVersion + 1;
      configured := configured[initVersion := conf.value];
      return 0;
    }

    method FiniInner()
      modifies this`conf, this`categories
      ensures conf == None && categories == null
    {
      categories := null;
      conf := None;
    }

    method Fini()
      requires Valid()
      modifies this`conf, this`categories, this`isInit
      ensures Valid() && !isInit && fresh(Footprint() - old(Footprint()))
    {
      if !isInit {
        return;
      }
      FiniInner();
      isInit := false;
    }

    /** Memory enough to give every category its rules of this configuration. */
    ghost predicate Enough(built: Option<Conf>, rooms: nat -> nat)
      reads this, categories
    {
      categories != null && built.Some? ==> categories.Enough(built.value.rules, rooms)
    }

    /** A category without rules: the environment is no longer what its invariant says. */
    lemma BrokenNotValid()
      requires isInit && categories != null && categories.Broken()
      ensures !Valid()
    {
    }

    /** zlog_reload. Its comment promises that a failed reload goes on with the old configuration; when
        the table update runs out of memory the code does not roll back, and a category is left
        without rules. */
    method Reload(request: Request, built: Option<Conf>, rooms: nat -> nat) returns (rc: int)
      requires Valid() && (built.Some? ==> Usable(built.value.rules))
      modifies this`conf, this`initVersion, this`configured, Members()
      ensures categories == old(categories) && isInit == old(isInit) && threads == old(threads)
      ensures Footprint() == old(Footprint()) && initVersion >= old(initVersion)
      ensures !isInit || request == Automatic(false) || built == None ==> Same()
      ensures rc == 0 <==> !isInit || request == Automatic(false) || (built.Some? && old(Enough(built, rooms)))
      ensures Valid() <==> !isInit || request == Automatic(false) || built == None || old(Enough(built, rooms))
      ensures rc == 0 && isInit && request != Automatic(false) ==> conf == built
      ensures rc == 0 && isInit && request != Automatic(false) ==>
        built.Some? && initVersion !in old(configured) && configured == old(configured)[initVersion := built.value]
      ensures rc != 0 ==> conf == old(conf) && initVersion == old(initVersion) && configured == old(configured)
      ensures rc != 0 ==> forall c | c in Members() :: BackedUp(c.Now(), old(c.Now()))
    {
      hide FitRules, Agrees, Usable, Thread.Fits, CategoryTable.Settled;
      if !isInit {
        return 0;
      }
      if request.Automatic? && !request.due {
        return 0;
      }
      if built == None {
        return -1;
      }
      var ok := categories.UpdateAndCommit(built.value.rules, rooms, conf.value.rules);
      if !ok {
        BrokenNotValid();
        return -1;
      }
      initVersion := initVersion + 1;
      conf := built;
      configured := configured[initVersion := built.value];
      return 0;
    }

    /** A category of this name can be made: the name fits and there is memory. */
    ghost predicate CanMake(name: Bytes, room: nat)
      requires isInit && conf.Some?
      reads this
    {
      |name| <= MAXLEN_PATH && room > |FitRules(conf.value.rules, name)| + 1
    }

    /** zlog_get_category; room is how many allocations succeed. */
    method GetCategory(name: Bytes, room: nat) returns (c: Category?)
      requires Valid()
      modifies categories
      ensures Valid() && configured == old(configured) && fresh(Footprint() - old(Footprint()))
      ensures c != null ==> isInit && c.name == name && c in Members()
      ensures !isInit ==> c == null
      ensures isInit ==> (c == null <==> !old(categories.Has(name)) && !CanMake(name, room))
    {
      if !isInit {
        return null;
      }
      c := categories.FetchCategory(name, conf.value.rules, room);
    }

    /** A thread of an older version is rebuilt for the current configuration. */
    method Refresh(id: nat) returns (ok: bool)
      requires Valid() && isInit && id in threads
      modifies threads[id]
      ensures Valid()
      ensures ok ==> threads[id].initVersion == initVersion && threads[id].Fits(conf.value)
      ensures !ok ==> !BufSizesOk(conf.value)
    {
      hide Usable, Agrees, FitRules, CategoryTable.Settled;
      var t := threads[id];
      if t.initVersion != initVersion {
        var rc := t.RebuildMsgBuf(conf.value, configured[t.initVersion]);
        if rc != 0 {
          return false;
        }
        t.RebuildEvent(conf.value.timeCacheCount);
        t.initVersion := initVersion;
      }
      return true;
    }

    /** The macro zlog_fetch_thread: a thread that gets through fits the current configuration. */
    method FetchThread(id: nat) returns (t: Thread?)
      requires Valid() && isInit
      modifies this`threads, if id in threads then {threads[id]} else {}
      ensures Valid() && threads.Keys <= old(threads.Keys) + {id} && fresh(Footprint() - old(Footprint()))
      ensures t != null ==> id in threads && threads[id] == t && t.initVersion == initVersion && t.Fits(conf.value)
      ensures t == null ==> !BufSizesOk(conf.value)
    {
      hide Usable, Agrees, FitRules, CategoryTable.Settled;
      if id !in threads {
        var made := NewThread(initVersion, conf.value);
        if made == null {
          return null;
        }
        threads := threads[id := made];
        return made;
      }
      var ok := Refresh(id);
      return if ok then threads[id] else null;
    }

    lemma MemberSettled(c: Category)
      requires Valid() && isInit && c in Members()
      ensures c.Settled(conf.value.rules)
    {
    }

    lemma MemberBitmap(c: Category)
      requires Valid() && isInit && c in Members()
      ensures |c.levelBitmap| == BITMAP
    {
      MemberSettled(c);
    }

    /** The part of a log call under the lock. */
    method LogLocked(id: nat, c: Category, lv: nat) returns (out: Rules, logged: bool)
      requires Valid() && (isInit ==> c in Members())
      modifies this`threads, if id in threads then {threads[id]} else {}
      ensures Valid() && threads.Keys <= old(threads.Keys) + {id} && fresh(Footprint() - old(Footprint()))
      ensures logged ==> isInit && out == Outputting(FitRules(conf.value.rules, c.name), lv)
      ensures logged ==> id in threads && threads[id].initVersion == initVersion && threads[id].Fits(conf.value)
      ensures !logged ==> out == [] && (isInit ==> !BufSizesOk(conf.value))
    {
      hide FitRules, Agrees, Outputting, Usable, CategoryTable.Settled, BufSizesOk, Thread.Fits;
      if !isInit {
        return [], false;
      }
      MemberSettled(c);
      ghost var rules := conf.value.rules;
      var t := FetchThread(id);
      if t == null {
        return [], false;
      }
      out := c.Output(lv);
      logged := true;
    }

    /** A log call: the bitmap first, without the lock, then the thread's state, then the rules.
        Nothing is written to buffers of another configuration, and the filter loses nothing. */
    method Log(id: nat, c: Category, lv: nat) returns (out: Rules, logged: bool)
      requires Valid() && lv < LEVELS && (isInit ==> c in Members()) && |c.levelBitmap| == BITMAP
      modifies this`threads, if id in threads then {threads[id]} else {}
      ensures Valid() && threads.Keys <= old(threads.Keys) + {id} && fresh(Footprint() - old(Footprint()))
      ensures isInit && BufSizesOk(conf.value) ==> out == Outputting(FitRules(conf.value.rules, c.name), lv)
      ensures logged ==> isInit && id in threads
      ensures logged ==> threads[id].initVersion == initVersion && threads[id].Fits(conf.value)
      ensures out != [] ==> logged
    {
      if isInit {
        MemberSettled(c);
        OutputtingWanted(FitRules(conf.value.rules, c.name), lv);
      }
      hide FitRules, Outputting, Usable, Wanted;
      if c.NeedlessLevel(lv) {
        return [], false;
      }
      out, logged := LogLocked(id, c, lv);
    }

    /** A log call through the handle of the k-th category. */
    method LogAt(id: nat, k: nat, lv: nat) returns (out: Rules, logged: bool)
      requires Valid() && lv < LEVELS
      modifies this`threads, if id in threads then {threads[id]} else {}
      ensures Valid() && fresh(Footprint() - old(Footprint()))
    {
      hide FitRules, Outputting, Usable, Wanted, Agrees;
      if !isInit || k >= |categories.categories| {
        return [], false;
      }
      MemberBitmap(categories.categories[k]);
      out, logged := Log(id, categories.categories[k], lv);
    }

    /** Nothing of the configuration has changed, nor any category. */
    twostate predicate Same()
      reads this, categories, Members()
    {
      && conf == old(conf) && initVersion == old(initVersion) && configured == old(configured)
      && categories == old(categories) && Members() == old(Members())
      && forall c | c in old(Members()) :: c.Now() == old(c.Now())
    }
  }

  // ---- interleavings ----

  datatype Step =
    | DoInit(built: Option<Conf>)
    | DoReload(request: Request, built: Option<Conf>, rooms: nat -> nat)
    | DoFini
    | DoGetCategory(name: Bytes, room: nat)
    | DoLog(id: nat, category: nat, level: nat)

  predicate StepOk(s: Step) {
    match s
    case DoInit(built) => built.Some? ==> Usable(built.value.rules)
    case DoReload(_, built, _) => built.Some? ==> Usable(built.value.rules)
    case DoFini => true
    case DoGetCategory(_, _) => true
    case DoLog(_, _, level) => level < LEVELS
  }

  /** The one step that can break the environment: a reload that is due, of a configuration that could
      be built, without the memory for the rules of every category. */
  ghost predicate Breaks(env: Env, s: Step)
    reads env, env.categories
  {
    s.DoReload? && env.isInit && s.request != Automatic(false) && s.built.Some? && !env.Enough(s.built, s.rooms)
  }

  /** One call; ok unless it breaks the environment. */
  method DoStep(env: Env, s: Step) returns (ok: bool)
    requires env.Valid() && StepOk(s)
    modifies env, env.Footprint()
    ensures ok == env.Valid() == !old(Breaks(env, s)) == !Breaks(env, s)
    ensures fresh(env.Footprint() - old(env.Footprint()))
    ensures env.initVersion >= old(env.initVersion)
    ensures forall v | v in old(env.configured) :: v in env.configured && env.configured[v] == old(env.configured)[v]
  {
    hide Usable, Agrees, FitRules, CategoryTable.Settled, CategoryTable.Enough, CategoryTable.Has;
    ok := true;
    match s
    case DoInit(built) =>
      var _ := env.Init(built);
    case DoReload(request, built, rooms) =>
      var rc := env.Reload(request, built, rooms);
      ok := rc == 0 || built == None;
    case DoFini =>
      env.Fini();
    case DoGetCategory(name, room) =>
      var _ := env.GetCategory(name, room);
    case DoLog(id, category, level) =>
      var _, _ := env.LogAt(id, category, level);
  }

  /** Any interleaving of the calls of any threads, with whatever memory there is: the invariant holds
      after every step until a reload breaks it, and no other step can. */
  method Run(steps: seq<Step>) returns (env: Env, done: nat)
    requires forall i | 0 <= i < |steps| :: StepOk(steps[i])
    ensures done <= |steps| && (env.Valid() <==> done == |steps|)
    ensures done < |steps| ==> Breaks(env, steps[done])
  {
    env := new Env();
    done := 0;
    while done < |steps|
      invariant done <= |steps| && fresh(env) && env.Valid() && fresh(env.Footprint())
    {
      var ok := DoStep(env, steps[done]);
      if !ok {
        return;
      }
      done := done + 1;
    }
  }
}
