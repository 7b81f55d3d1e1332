/**
 Categories: the rules that fit a name, the bitmap that spares evaluating them, and the
 update / commit / rollback protocol on the whole table.
 */
module ZlogCategory {
  import opened Text
  import opened ZlogRule

  type Rules = seq<Rule>

  predicate Usable(rules: Rules) {
    forall r | r in rules :: Faithful(r) && r.category != []
  }

  // ---- which rules a category gets ----

  function Matching(rules: Rules, name: Bytes): Rules {
    if rules == [] then []
    else Matching(rules[..|rules| - 1], name) + (if Fits(rules[|rules| - 1], name) then [rules[|rules| - 1]] else [])
  }

  function LastWastebin(rules: Rules): Rules {
    if rules == [] then []
    else if IsWastebin(rules[|rules| - 1]) then [rules[|rules| - 1]]
    else LastWastebin(rules[..|rules| - 1])
  }

  /** The matches in order, or else the last wastebin rule. */
  function FitRules(rules: Rules, name: Bytes): Rules {
    var m := Matching(rules, name);
    if m != [] then m else LastWastebin(rules)
  }

  /** A level is set iff some of the rules would output at it. */
  predicate Agrees(bitmap: seq<bv8>, rules: Rules) {
    |bitmap| == BITMAP && forall lv | 0 <= lv < LEVELS :: LevelBit(bitmap, lv) <==> Wanted(rules, lv)
  }

  predicate Wanted(rules: Rules, lv: nat) {
    exists r | r in rules :: Outputs(r.compare, r.level, lv)
  }

  /** The rules that output, in order: what evaluating them all gives. */
  function Outputting(rules: Rules, lv: nat): Rules {
    if rules == [] then []
    else
      Outputting(rules[..|rules| - 1], lv) +
      (if Outputs(rules[|rules| - 1].compare, rules[|rules| - 1].level, lv) then [rules[|rules| - 1]] else [])
  }

  lemma {:induction false} OutputtingWanted(rules: Rules, lv: nat)
    ensures Outputting(rules, lv) != [] <==> Wanted(rules, lv)
  {
    if rules != [] {
      var t, r := rules[..|rules| - 1], rules[|rules| - 1];
      OutputtingWanted(t, lv);
      assert r in rules;
      if Wanted(rules, lv) && !Outputs(r.compare, r.level, lv) {
        var q :| q in rules && Outputs(q.compare, q.level, lv);
        assert q in t;
      }
    }
  }

  function EmptyBitmap(): seq<bv8> { seq(BITMAP, i => 0) }

  lemma EmptyAgrees()
    ensures Agrees(EmptyBitmap(), [])
  {
    forall lv | 0 <= lv < LEVELS
      ensures !LevelBit(EmptyBitmap(), lv)
    {
      PlainBits(lv % 8);
    }
  }

  lemma OrAgrees(a: seq<bv8>, b: seq<bv8>, rules: Rules, r: Rule)
    requires Agrees(a, rules) && Faithful(r)
    requires |b| == BITMAP && forall i | 0 <= i < BITMAP :: b[i] == a[i] | r.bitmap[i]
    ensures Agrees(b, rules + [r])
  {
    hide Bit;
    forall lv | 0 <= lv < LEVELS
      ensures LevelBit(b, lv) <==> Wanted(rules + [r], lv)
    {
      OrBits(a[lv / 8], r.bitmap[lv / 8], lv % 8);
      WantedSnoc(rules, r, lv);
      assert LevelBit(a, lv) <==> Wanted(rules, lv);
      assert LevelBit(r.bitmap, lv) <==> Outputs(r.compare, r.level, lv);
    }
  }

  lemma WantedSnoc(rules: Rules, r: Rule, lv: nat)
    ensures Wanted(rules + [r], lv) <==> Wanted(rules, lv) || Outputs(r.compare, r.level, lv)
  {
    assert (rules + [r])[|rules|] == r;
    if Wanted(rules, lv) {
      var q :| q in rules && Outputs(q.compare, q.level, lv);
      assert q in rules + [r];
    }
  }

  // ---- one category ----

  /** What a category holds of a configuration, with its backup. */
  datatype State = State(fit: Option<Rules>, bits: seq<bv8>, fitBackup: Option<Rules>, bitsBackup: seq<bv8>)

  /** Rolling back drops whatever the update made; without a backup there is nothing to do. */
  function RolledBack(s: State): State {
    if s.fitBackup == None then s else State(s.fitBackup, s.bitsBackup, None, EmptyBitmap())
  }

  function Committed(s: State): State {
    if s.fitBackup == None then s else State(s.fit, s.bits, None, EmptyBitmap())
  }

  /** A category an update has not reached, or one that keeps its old state as backup. */
  predicate BackedUp(now: State, was: State) {
    now == was || (now.fitBackup == was.fit && now.bitsBackup == was.bits)
  }

  /** In use: rules are there and nothing is being updated. */
  predicate Quiet(s: State) { s.fit.Some? && s.fitBackup == None && s.bitsBackup == EmptyBitmap() }

  /** Rollback undoes an update wherever it stopped. */
  lemma RollbackRestores(now: State, was: State)
    requires Quiet(was) && BackedUp(now, was)
    ensures RolledBack(now) == was
  {
  }

  class Category {
    const name: Bytes
    var levelBitmap: seq<bv8>
    var levelBitmapBackup: seq<bv8>
    var fitRules: Option<Rules>
    var fitRulesBackup: Option<Rules>

    function Now(): State
      reads this
    {
      State(fitRules, levelBitmap, fitRulesBackup, levelBitmapBackup)
    }

    /** In use under these rules: nothing is being updated. */
    ghost predicate Settled(rules: Rules)
      reads this
    {
      && fitRules == Some(FitRules(rules, name)) && Agrees(levelBitmap, FitRules(rules, name))
      && fitRulesBackup == None && levelBitmapBackup == EmptyBitmap()
    }

    /** calloc and strcpy of zlog_category_new. */
    constructor (name: Bytes)
      ensures this.name == name && Now() == State(None, EmptyBitmap(), None, EmptyBitmap())
    {
      this.name := name;
      levelBitmap, levelBitmapBackup := EmptyBitmap(), EmptyBitmap();
      fitRules, fitRulesBackup := None, None;
    }

    method OverlapBitmap(r: Rule, ghost rules: Rules)
      requires Faithful(r) && Agrees(levelBitmap, rules)
      modifies this`levelBitmap
      ensures Agrees(levelBitmap, rules + [r])
    {
      hide Agrees, Faithful;
      ghost var was := levelBitmap;
      assert |was| == BITMAP by {
        AgreesSize(was, rules);
      }
      assert |r.bitmap| == BITMAP by {
        FaithfulSize(r);
      }
      var i := 0;
      while i < BITMAP
        invariant i <= BITMAP && |levelBitmap| == BITMAP
        invariant forall k | 0 <= k < BITMAP :: levelBitmap[k] == if k < i then was[k] | r.bitmap[k] else was[k]
      {
        levelBitmap := levelBitmap[i := levelBitmap[i] | r.bitmap[i]];
        i := i + 1;
      }
      OrAgrees(was, levelBitmap, rules, r);
    }

    /** zlog_category_obtain_rules; `room` is how many list operations succeed before one runs out of
        memory: one makes the list, and each rule that fits is added by another. */
    method ObtainRules(rules: Rules, room: nat) returns (ok: bool)
      requires Usable(rules)
      modifies this`levelBitmap, this`fitRules
      ensures ok <==> room > |FitRules(rules, name)|
      ensures ok ==> fitRules == Some(FitRules(rules, name)) && Agrees(levelBitmap, FitRules(rules, name))
      ensures !ok ==> fitRules == None
    {
      hide Agrees, Matching, LastWastebin, Fits;
      levelBitmap := EmptyBitmap();
      fitRules := None;
      if room == 0 {
        return false;
      }
      var left: nat := room - 1;
      var fit: Rules := [];
      var wastebin: Rules := [];
      EmptyAgrees();
      NoRules(name);
      var i := 0;
      while i < |rules|
        invariant i <= |rules| && fit == Matching(rules[..i], name) && wastebin == LastWastebin(rules[..i])
        invariant Agrees(levelBitmap, fit) && left + |fit| == room - 1 && fitRules == None
      {
        var r := rules[i];
        assert r in rules;
        RulesSnoc(rules, i, name);
        var fits := MatchCategory(r, name);
        if fits {
          if left == 0 {
            MatchingGrows(rules, i + 1, name);
            return false;
          }
          left := left - 1;
          OverlapBitmap(r, fit);
          fit := fit + [r];
        }
        if IsWastebin(r) {
          wastebin := [r];
        }
        i := i + 1;
      }
      assert rules[..i] == rules;
      if fit == [] && wastebin != [] {
        WastebinIn(rules);
        if left == 0 {
          return false;
        }
        OverlapBitmap(wastebin[0], fit);
        assert [] + [wastebin[0]] == wastebin;
        fit := wastebin;
      }
      fitRules := Some(fit);
      return true;
    }

    method UpdateRules(rules: Rules, room: nat) returns (ok: bool)
      requires Usable(rules)
      modifies this
      ensures fitRulesBackup == old(fitRules) && levelBitmapBackup == old(levelBitmap)
      ensures ok <==> room > |FitRules(rules, name)|
      ensures ok ==> fitRules == Some(FitRules(rules, name)) && Agrees(levelBitmap, FitRules(rules, name))
      ensures !ok ==> fitRules == None
    {
      fitRulesBackup := fitRules;
      fitRules := None;
      levelBitmapBackup := levelBitmap;
      ok := ObtainRules(rules, room);
    }

    method CommitRules()
      modifies this
      ensures Now() == Committed(old(Now()))
    {
      if fitRulesBackup == None {
        return;
      }
      fitRulesBackup := None;
      levelBitmapBackup := EmptyBitmap();
    }

    method RollbackRules()
      modifies this
      ensures Now() == RolledBack(old(Now()))
    {
      if fitRulesBackup == None {
        return;
      }
      fitRules := fitRulesBackup;
      fitRulesBackup := None;
      levelBitmap := levelBitmapBackup;
      levelBitmapBackup := EmptyBitmap();
    }

    predicate NeedlessLevel(lv: nat)
      requires lv < LEVELS && |levelBitmap| == BITMAP
      reads this
    {
      !LevelBit(levelBitmap, lv)
    }

    /** zlog_category_output: every fit rule decides for itself. */
    method Output(lv: nat) returns (out: Rules)
      requires fitRules.Some?
      ensures out == Outputting(fitRules.value, lv)
    {
      out := [];
      var i := 0;
      while i < |fitRules.value|
        invariant i <= |fitRules.value| && out == Outputting(fitRules.value[..i], lv)
      {
        var r := fitRules.value[i];
        assert fitRules.value[..i + 1][..i] == fitRules.value[..i];
        if Outputs(r.compare, r.level, lv) {
          out := out + [r];
        }
        i := i + 1;
      }
      assert fitRules.value[..i] == fitRules.value;
    }

    /** A log call: the bitmap test first. It changes nothing. */
    method Log(lv: nat, ghost rules: Rules) returns (out: Rules)
      requires lv < LEVELS && Settled(rules)
      ensures out == Outputting(FitRules(rules, name), lv)
    {
      OutputtingWanted(fitRules.value, lv);
      if NeedlessLevel(lv) {
        return [];
      }
      out := Output(lv);
    }
  }

  lemma AgreesSize(bitmap: seq<bv8>, rules: Rules)
    requires Agrees(bitmap, rules)
    ensures |bitmap| == BITMAP
  {
  }

  lemma FaithfulSize(r: Rule)
    requires Faithful(r)
    ensures |r.bitmap| == BITMAP
  {
  }

  lemma NoRules(name: Bytes)
    ensures Matching([], name) == [] && LastWastebin([]) == []
  {
  }

  lemma RulesSnoc(rules: Rules, i: nat, name: Bytes)
    requires i < |rules|
    ensures Matching(rules[..i + 1], name) ==
      Matching(rules[..i], name) + (if Fits(rules[i], name) then [rules[i]] else [])
    ensures LastWastebin(rules[..i + 1]) == if IsWastebin(rules[i]) then [rules[i]] else LastWastebin(rules[..i])
  {
    assert rules[..i + 1][..i] == rules[..i];
  }

  lemma {:induction false} MatchingGrows(rules: Rules, i: nat, name: Bytes)
    requires i <= |rules|
    ensures |Matching(rules[..i], name)| <= |Matching(rules, name)|
    decreases |rules|
  {
    if i < |rules| {
      MatchingGrows(rules[..|rules| - 1], i, name);
      assert rules[..|rules| - 1][..i] == rules[..i];
    } else {
      assert rules[..i] == rules;
    }
  }

  lemma {:induction false} WastebinIn(rules: Rules)
    requires LastWastebin(rules) != []
    ensures |LastWastebin(rules)| == 1 && LastWastebin(rules)[0] in rules && IsWastebin(LastWastebin(rules)[0])
  {
    if !IsWastebin(rules[|rules| - 1]) {
      WastebinIn(rules[..|rules| - 1]);
    }
  }

  // ---- which rules, and in which order ----

  /** The rules of a category in the order of the file: those of one stretch behind those of another. */
  lemma {:induction false} MatchingJoin(a: Rules, b: Rules, name: Bytes)
    ensures Matching(a + b, name) == Matching(a, name) + Matching(b, name)
  {
    hide Matching;
    if b == [] {
      assert a + b == a;
      MatchingNone(name);
    } else {
      MatchingLast(a, b, name);
      MatchingJoin(a, b[..|b| - 1], name);
    }
  }

  lemma MatchingNone(name: Bytes)
    ensures Matching([], name) == []
  {
  }

  lemma MatchingLast(a: Rules, b: Rules, name: Bytes)
    requires b != []
    ensures var last := if Fits(b[|b| - 1], name) then [b[|b| - 1]] else [];
      && Matching(a + b, name) == Matching(a + b[..|b| - 1], name) + last
      && Matching(b, name) == Matching(b[..|b| - 1], name) + last
  {
    hide Fits;
    assert (a + b)[..|a + b| - 1] == a + b[..|b| - 1];
  }

  lemma MatchingOne(r: Rule, name: Bytes)
    ensures Matching([r], name) == if Fits(r, name) then [r] else []
  {
    hide Fits;
    assert [r][..0] == [] && Matching([], name) == [];
  }

  /** Without a rule of its own a category gets the last wastebin rule, if there is one. */
  lemma {:induction false} WastebinLast(a: Rules, w: Rule, b: Rules, name: Bytes)
    requires IsWastebin(w) && (forall r | r in b :: !IsWastebin(r)) && forall r | r in a + [w] + b :: !Fits(r, name)
    ensures FitRules(a + [w] + b, name) == [w]
  {
    NoMatch(a + [w] + b, name);
    LastBehind(a + [w], b);
    assert (a + [w])[..|a|] == a;
  }

  lemma {:induction false} NoMatch(rules: Rules, name: Bytes)
    requires forall r | r in rules :: !Fits(r, name)
    ensures Matching(rules, name) == []
  {
    hide Fits;
    if rules != [] {
      NoMatch(rules[..|rules| - 1], name);
    }
  }

  lemma {:induction false} LastBehind(a: Rules, b: Rules)
    requires forall r | r in b :: !IsWastebin(r)
    ensures LastWastebin(a + b) == LastWastebin(a)
  {
    hide IsWastebin;
    if b == [] {
      assert a + b == a;
    } else {
      assert (a + b)[..|a + b| - 1] == a + b[..|b| - 1];
      assert (a + b)[|a + b| - 1] == b[|b| - 1];
      LastBehind(a, b[..|b| - 1]);
    }
  }

  lemma NoWastebin(rules: Rules, name: Bytes)
    requires forall r | r in rules :: !IsWastebin(r) && !Fits(r, name)
    ensures FitRules(rules, name) == []
  {
    NoMatch(rules, name);
    LastBehind([], rules);
    assert [] + rules == rules;
  }

  /** So do the rules that output at a level. */
  lemma {:induction false} OutputtingJoin(a: Rules, b: Rules, lv: nat)
    ensures Outputting(a + b, lv) == Outputting(a, lv) + Outputting(b, lv)
  {
    hide Outputting;
    if b == [] {
      assert a + b == a;
      OutputtingNone(lv);
    } else {
      OutputtingLast(a, b, lv);
      OutputtingJoin(a, b[..|b| - 1], lv);
    }
  }

  lemma OutputtingNone(lv: nat)
    ensures Outputting([], lv) == []
  {
  }

  lemma OutputtingOne(r: Rule, lv: nat)
    ensures Outputting([r], lv) == if Outputs(r.compare, r.level, lv) then [r] else []
  {
    hide Outputs;
    assert [r][..0] == [] && Outputting([], lv) == [];
  }

  lemma OutputtingLast(a: Rules, b: Rules, lv: nat)
    requires b != []
    ensures var r, now := b[|b| - 1], a + b[..|b| - 1];
      var last := if Outputs(r.compare, r.level, lv) then [r] else [];
      Outputting(a + b, lv) == Outputting(now, lv) + last && Outputting(b, lv) == Outputting(b[..|b| - 1], lv) + last
  {
    hide Outputs;
    assert (a + b)[..|a + b| - 1] == a + b[..|b| - 1];
  }
}
