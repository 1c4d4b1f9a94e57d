/** The ordered substitution map: (find, replace) rules kept in the order their
    keys were first registered, applied one after another to a string. */
module SubstitutionMap {
  import opened ExitCodes
  import opened NameCheck

  /** One rule: every occurrence of `first` becomes `second`. */
  datatype MapEntry = MapEntry(first: string, second: string)

  /** Replace-all is undefined for an empty needle, so every rule that is
      applied must have a non-empty key. */
  predicate NonEmptyKeys(rules: seq<MapEntry>)
  {
    forall k :: 0 <= k < |rules| ==> rules[k].first != []
  }

  predicate UniqueKeys(rules: seq<MapEntry>)
  {
    forall i, j :: 0 <= i < j < |rules| ==> rules[i].first != rules[j].first
  }

  /** `find` occurs in `s` at index `i`. */
  predicate MatchAt(find: string, s: string, i: int)
  {
    0 <= i && i + |find| <= |s| && s[i..i + |find|] == find
  }

  /** `find` occurs somewhere in `s`. */
  ghost predicate Occurs(find: string, s: string)
  {
    exists i :: MatchAt(find, s, i)
  }

  /** `mstr_replace_all`: scan left to right, replace each non-overlapping
      occurrence of `find` by `with`, and resume the scan after the inserted
      text, so the replacement is never scanned again. */
  function ReplaceAll(s: string, find: string, with: string): string
    requires find != []
    decreases |s|
  {
    if |s| < |find| then s
    else if s[..|find|] == find then with + ReplaceAll(s[|find|..], find, with)
    else [s[0]] + ReplaceAll(s[1..], find, with)
  }

  /** A string without the needle is left as it is. */
  lemma {:induction false} ReplaceAllAbsent(s: string, find: string, with: string)
    requires find != [] && !Occurs(find, s)
    ensures ReplaceAll(s, find, with) == s
    decreases |s|
  {
    if |s| < |find| {
    } else if s[..|find|] == find {
      assert MatchAt(find, s, 0);
    } else {
      forall i | MatchAt(find, s[1..], i)
        ensures MatchAt(find, s, i + 1)
      {
        assert s[1..][i..i + |find|] == s[i + 1..i + 1 + |find|];
      }
      ReplaceAllAbsent(s[1..], find, with);
      assert s == [s[0]] + s[1..];
    }
  }

  /** Replacing a needle by itself changes nothing. */
  lemma {:induction false} ReplaceAllByItself(s: string, find: string)
    requires find != []
    ensures ReplaceAll(s, find, find) == s
    decreases |s|
  {
    if |s| < |find| {
    } else if s[..|find|] == find {
      ReplaceAllByItself(s[|find|..], find);
      assert s == s[..|find|] + s[|find|..];
    } else {
      ReplaceAllByItself(s[1..], find);
      assert s == [s[0]] + s[1..];
    }
  }

  /** The replacement is not scanned again: a rule whose replacement contains
      its own key still finishes, after one pass. */
  lemma ReplacementNotRescanned()
    ensures ReplaceAll("aXa", "a", "aa") == "aaXaa"
  {
    assert "aXa"[..1] == "a";
    assert "aXa"[1..] == "Xa";
    assert "Xa"[..1] == ['X'];
    assert "Xa"[1..] == "a";
    assert "a"[..1] == "a";
    assert "a"[1..] == "";
  }

  /** `ReplaceStringByMap`'s meaning: the rules' replace-alls, composed in
      registration order, each one applied to the previous one's output. */
  function ApplyRules(rules: seq<MapEntry>, s: string): string
    requires NonEmptyKeys(rules)
    decreases |rules|
  {
    if rules == [] then s
    else ApplyRules(rules[1..], ReplaceAll(s, rules[0].first, rules[0].second))
  }

  /** Applying a concatenation of rule lists is applying one list, then the other. */
  lemma {:induction false} ApplyRulesAppend(r1: seq<MapEntry>, r2: seq<MapEntry>, s: string)
    requires NonEmptyKeys(r1) && NonEmptyKeys(r2)
    ensures NonEmptyKeys(r1 + r2)
    ensures ApplyRules(r1 + r2, s) == ApplyRules(r2, ApplyRules(r1, s))
    decreases |r1|
  {
    if r1 == [] {
      assert r1 + r2 == r2;
    } else {
      assert (r1 + r2)[1..] == r1[1..] + r2;
      ApplyRulesAppend(r1[1..], r2, ReplaceAll(s, r1[0].first, r1[0].second));
    }
  }

  /** Two rules: the second acts on the output of the first. */
  lemma ApplyTwoRules(a: MapEntry, b: MapEntry, s: string)
    requires a.first != [] && b.first != []
    ensures ApplyRules([a, b], s) == ReplaceAll(ReplaceAll(s, a.first, a.second), b.first, b.second)
  {
    var once := ReplaceAll(s, a.first, a.second);
    assert [a, b][1..] == [b];
    assert ApplyRules([a, b], s) == ApplyRules([b], once);
    assert [b][1..] == [];
    assert ApplyRules([b], once) == ApplyRules([], ReplaceAll(once, b.first, b.second));
  }

  /** Rules that replace each key by itself leave every string unchanged. */
  lemma {:induction false} IdentityRules(rules: seq<MapEntry>, s: string)
    requires NonEmptyKeys(rules)
    requires forall k :: 0 <= k < |rules| ==> rules[k].second == rules[k].first
    ensures ApplyRules(rules, s) == s
    decreases |rules|
  {
    if rules != [] {
      ReplaceAllByItself(s, rules[0].first);
      IdentityRules(rules[1..], s);
    }
  }

  /** The linear scan of `operator[]`: the index of the first entry with
      `key`, or `|rules|` when there is none. */
  function Find(rules: seq<MapEntry>, key: string): (i: nat)
    ensures i <= |rules|
    ensures i < |rules| ==> rules[i].first == key
    ensures forall j :: 0 <= j < i ==> rules[j].first != key
    decreases |rules|
  {
    if rules == [] then 0
    else if rules[0].first == key then 0
    else 1 + Find(rules[1..], key)
  }

  /** The first match is the only index `Find` can give. */
  lemma {:induction false} FindIsFirstMatch(rules: seq<MapEntry>, key: string, i: nat)
    requires i <= |rules|
    requires i < |rules| ==> rules[i].first == key
    requires forall j :: 0 <= j < i ==> rules[j].first != key
    ensures Find(rules, key) == i
    decreases |rules|
  {
    if rules != [] && rules[0].first != key {
      FindIsFirstMatch(rules[1..], key, i - 1);
    }
  }

  /** `the_map[key] = value`: overwrite the value of an existing key in place,
      or append a new entry at the end. */
  function Put(rules: seq<MapEntry>, key: string, value: string): (r: seq<MapEntry>)
    ensures Find(rules, key) < |rules| ==> |r| == |rules|
    ensures Find(rules, key) == |rules| ==> r == rules + [MapEntry(key, value)]
    ensures forall j :: 0 <= j < |rules| && j != Find(rules, key) ==> r[j] == rules[j]
    ensures Find(r, key) == Find(rules, key) < |r| && r[Find(r, key)] == MapEntry(key, value)
  {
    var i := Find(rules, key);
    var r := if i < |rules| then rules[i := MapEntry(key, value)] else rules + [MapEntry(key, value)];
    FindIsFirstMatch(r, key, i);
    r
  }

  /** Registering keeps keys unique, and keeps the keys in first-seen order. */
  lemma PutKeepsKeys(rules: seq<MapEntry>, key: string, value: string)
    requires UniqueKeys(rules)
    ensures UniqueKeys(Put(rules, key, value))
    ensures forall j :: 0 <= j < |rules| ==> Put(rules, key, value)[j].first == rules[j].first
  {
  }

  /** The association list of `MapType`, updated in place by `operator[]`. */
  class MapType {
    var entries: seq<MapEntry>

    ghost predicate Valid()
      reads this
    {
      UniqueKeys(entries)
    }

    constructor ()
      ensures Valid() && entries == []
    {
      entries := [];
    }

    /** `operator[]`: the index of `key`'s entry, found by a linear scan or
        appended with an empty replacement; the caller assigns through it. */
    method Slot(key: string) returns (i: nat)
      requires Valid()
      modifies this
      ensures Valid()
      ensures i == Find(old(entries), key)
      ensures i < |entries| && entries[i].first == key
      ensures entries == if i < |old(entries)| then old(entries) else old(entries) + [MapEntry(key, "")]
    {
      i := 0;
      while i < |entries|
        invariant 0 <= i <= |entries|
        invariant entries == old(entries)
        invariant forall j :: 0 <= j < i ==> entries[j].first != key
      {
        if entries[i].first == key {
          FindIsFirstMatch(entries, key, i);
          return;
        }
        i := i + 1;
      }
      FindIsFirstMatch(entries, key, i);
      entries := entries + [MapEntry(key, "")];
    }

    /** Assignment through the reference `operator[]` returns. */
    method Assign(i: nat, value: string)
      requires Valid() && i < |entries|
      modifies this
      ensures Valid()
      ensures entries == old(entries)[i := old(entries)[i].(second := value)]
    {
      entries := entries[i := entries[i].(second := value)];
    }
  }

  method ReplaceStringByMap(str: string, m: MapType) returns (r: string)
    requires NonEmptyKeys(m.entries)
    ensures r == ApplyRules(m.entries, str)
  {
    r := str;
    var i := 0;
    while i < |m.entries|
      invariant 0 <= i <= |m.entries|
      invariant NonEmptyKeys(m.entries[..i])
      invariant r == ApplyRules(m.entries[..i], str)
    {
      var e := m.entries[i];
      assert m.entries[..i + 1] == m.entries[..i] + [e];
      assert [e][1..] == [];
      ApplyRulesAppend(m.entries[..i], [e], str);
      r := ReplaceAll(r, e.first, e.second);
      i := i + 1;
    }
    assert m.entries[..i] == m.entries;
  }

  /** The pair loop of `main` from argument `i` on: each replacement is
      screened with `CheckChars` before its pair is registered, and the first
      one refused ends the loop with that code. */
  function Register(args: seq<string>, i: nat, rules: seq<MapEntry>): (ExitCode, seq<MapEntry>)
    decreases |args| - i
  {
    if i + 1 < |args| then
      if CharsCode(args[i + 1]) != Success then (CharsCode(args[i + 1]), rules)
      else Register(args, i + 2, Put(rules, args[i], args[i + 1]))
    else (Success, rules)
  }

  /** The `n`-th pair from argument `i` on has a replacement `CheckChars` refuses. */
  predicate RefusedPair(args: seq<string>, i: nat, n: nat)
  {
    i + 2 * n + 1 < |args| && CharsCode(args[i + 2 * n + 1]) != Success
  }

  /** Registration fails exactly when some pair's replacement is refused, and
      then with InvalidChar and without registering anything more. */
  lemma {:induction false} RegisterRefuses(args: seq<string>, i: nat, rules: seq<MapEntry>)
    ensures Register(args, i, rules).0 in {Success, InvalidChar}
    ensures Register(args, i, rules).0 == InvalidChar <==> exists n: nat :: RefusedPair(args, i, n)
    decreases |args| - i
  {
    if i + 1 < |args| {
      if CharsCode(args[i + 1]) != Success {
        assert RefusedPair(args, i, 0);
      } else {
        var j := i + 2;
        RegisterRefuses(args, j, Put(rules, args[i], args[i + 1]));
        if exists n: nat :: RefusedPair(args, i, n) {
          var n: nat :| RefusedPair(args, i, n);
          assert n != 0;
          assert RefusedPair(args, j, n - 1);
        }
        if exists n: nat :: RefusedPair(args, j, n) {
          var n: nat :| RefusedPair(args, j, n);
          assert RefusedPair(args, i, n + 1);
        }
      }
    } else {
      forall n: nat ensures !RefusedPair(args, i, n) {
      }
    }
  }

  /** Every replacement that reaches the map has passed `CheckChars`, and keys
      stay unique. */
  lemma {:induction false} RegisterScreens(args: seq<string>, i: nat, rules: seq<MapEntry>)
    requires UniqueKeys(rules)
    requires forall k :: 0 <= k < |rules| ==> CharsCode(rules[k].second) == Success
    ensures UniqueKeys(Register(args, i, rules).1)
    ensures forall k :: 0 <= k < |Register(args, i, rules).1| ==>
              CharsCode(Register(args, i, rules).1[k].second) == Success
    decreases |args| - i
  {
    if i + 1 < |args| && CharsCode(args[i + 1]) == Success {
      var next := Put(rules, args[i], args[i + 1]);
      PutKeepsKeys(rules, args[i], args[i + 1]);
      RegisterScreens(args, i + 2, next);
    }
  }

  /** Every pattern from argument `i` on, taking every second argument, is
      non-empty. */
  predicate PatternsNonEmpty(args: seq<string>, i: nat)
  {
    forall j :: i <= j < |args| - 1 && (j - i) % 2 == 0 ==> args[j] != []
  }

  /** With non-empty patterns on the command line, the map holds only rules
      that can be applied. */
  lemma {:induction false} RegisterKeepsKeysNonEmpty(args: seq<string>, i: nat, rules: seq<MapEntry>)
    requires NonEmptyKeys(rules)
    requires PatternsNonEmpty(args, i)
    ensures NonEmptyKeys(Register(args, i, rules).1)
    decreases |args| - i
  {
    if i + 1 < |args| && CharsCode(args[i + 1]) == Success {
      var next := Put(rules, args[i], args[i + 1]);
      assert args[i] != [];
      forall k | 0 <= k < |next| ensures next[k].first != [] {
        if k != Find(rules, args[i]) && k < |rules| {
          assert next[k] == rules[k];
        }
      }
      assert PatternsNonEmpty(args, i + 2) by {
        forall j | i + 2 <= j < |args| - 1 && (j - (i + 2)) % 2 == 0 ensures args[j] != [] {
          assert (j - i) % 2 == 0;
        }
      }
      RegisterKeepsKeysNonEmpty(args, i + 2, next);
    }
  }

  /** The loop of `main` that builds the map from the pairs that follow the
      source and destination arguments. */
  method BuildMap(argv: seq<string>) returns (ret: ExitCode, m: MapType)
    ensures fresh(m) && m.Valid()
    ensures (ret, m.entries) == Register(argv, 3, [])
  {
    m := new MapType();
    var i := 3;
    while i + 1 < |argv|
      invariant i >= 3
      invariant m.Valid()
      invariant Register(argv, i, m.entries) == Register(argv, 3, [])
      decreases |argv| - i
    {
      var from := argv[i];
      var to := argv[i + 1];
      ret := CheckChars(to);
      if ret != Success {
        return;
      }
      ghost var before := m.entries;
      var slot := m.Slot(from);
      m.Assign(slot, to);
      assert m.entries == Put(before, from, to);
      i := i + 2;
    }
    ret := Success;
  }
}
