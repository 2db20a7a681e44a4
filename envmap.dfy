/** The name-to-value dictionaries the tool passes around (`all_env_vars`). A Python dict
    keeps its keys in insertion order, and that order is what the variable table shows,
    so a dictionary is modelled as a sequence of entries with distinct names. */
module EnvMap {
  import opened Wrappers

  datatype Entry = Entry(name: string, value: string)

  type Env = seq<Entry>

  /** Every dict satisfies this: no key occurs twice. */
  predicate DistinctNames(env: Env) {
    forall i, j :: 0 <= i < j < |env| ==> env[i].name != env[j].name
  }

  /** `k in env`. */
  predicate Has(env: Env, k: string) {
    exists i :: 0 <= i < |env| && env[i].name == k
  }

  /** Membership in the tail, one step of the recursions below. */
  lemma HasTail(env: Env, k: string)
    requires env != [] && env[0].name != k
    ensures Has(env, k) <==> Has(env[1..], k)
  {
    if Has(env, k) {
      var i :| 0 <= i < |env| && env[i].name == k;
      assert env[1..][i - 1].name == k;
    }
    if Has(env[1..], k) {
      var i :| 0 <= i < |env[1..]| && env[1..][i].name == k;
      assert env[i + 1].name == k;
    }
  }

  function Names(env: Env): (r: seq<string>)
    ensures |r| == |env| && forall i :: 0 <= i < |env| ==> r[i] == env[i].name
  {
    if env == [] then [] else [env[0].name] + Names(env[1..])
  }

  /** `env.get(k)`. */
  function Lookup(env: Env, k: string): Option<string> {
    if env == [] then None
    else if env[0].name == k then Some(env[0].value)
    else Lookup(env[1..], k)
  }

  /** A key is found exactly when it is one of the names. */
  lemma {:induction false} LookupFound(env: Env, k: string)
    ensures Lookup(env, k).Some? <==> Has(env, k)
  {
    if env != [] {
      LookupFound(env[1..], k);
      if env[0].name != k { HasTail(env, k); }
    }
  }

  /** In a dict, an entry is present exactly when looking its name up gives its value. */
  lemma {:induction false} LookupIn(env: Env, k: string, v: string)
    requires DistinctNames(env)
    ensures Lookup(env, k) == Some(v) <==> Entry(k, v) in env
  {
    if env != [] {
      LookupIn(env[1..], k, v);
      assert env == [env[0]] + env[1..];
    }
  }

  /** `env[k] = v`: an existing key keeps its position and gets the new value; a new key
      goes to the end. */
  function Assign(env: Env, k: string, v: string): Env {
    if env == [] then [Entry(k, v)]
    else if env[0].name == k then [Entry(k, v)] + env[1..]
    else [env[0]] + Assign(env[1..], k, v)
  }

  lemma {:induction false} AssignLookup(env: Env, k: string, v: string, k': string)
    ensures Lookup(Assign(env, k, v), k') == if k' == k then Some(v) else Lookup(env, k')
  {
    if env != [] && env[0].name != k {
      AssignLookup(env[1..], k, v, k');
    }
  }

  lemma {:induction false} AssignNames(env: Env, k: string, v: string)
    ensures Names(Assign(env, k, v)) == if Has(env, k) then Names(env) else Names(env) + [k]
  {
    if env != [] {
      assert Names(env) == [env[0].name] + Names(env[1..]);
      if env[0].name != k {
        HasTail(env, k);
        AssignNames(env[1..], k, v);
        assert Names(Assign(env, k, v)) == [env[0].name] + Names(Assign(env[1..], k, v));
      } else {
        assert Names(Assign(env, k, v)) == [k] + Names(env[1..]);
      }
    }
  }

  /** Names stay distinct exactly when they were: the names are the old ones, or the old
      ones plus the new key. */
  lemma AssignDistinct(env: Env, k: string, v: string)
    requires DistinctNames(env)
    ensures DistinctNames(Assign(env, k, v))
  {
    var r := Assign(env, k, v);
    AssignNames(env, k, v);
    forall i, j | 0 <= i < j < |r| ensures r[i].name != r[j].name {
      assert Names(r)[i] == r[i].name && Names(r)[j] == r[j].name;
      if j < |env| {
        assert Names(env)[i] == env[i].name && Names(env)[j] == env[j].name;
      } else {
        assert Names(env)[i] == env[i].name;
        assert !Has(env, k) && r[j].name == k;
      }
    }
  }

  /** `del env[k]`: the first entry named `k` goes; everything else keeps its order. */
  function Delete(env: Env, k: string): Env {
    if env == [] then []
    else if env[0].name == k then env[1..]
    else [env[0]] + Delete(env[1..], k)
  }

  /** Position of the first entry named `k`. */
  function IndexOf(env: Env, k: string): (i: nat)
    requires Has(env, k)
    ensures i < |env| && env[i].name == k
  {
    if env[0].name == k then 0 else HasTail(env, k); 1 + IndexOf(env[1..], k)
  }

  /** Deleting an absent key changes nothing. */
  lemma {:induction false} DeleteAbsent(env: Env, k: string)
    requires !Has(env, k)
    ensures Delete(env, k) == env
  {
    if env != [] {
      HasTail(env, k);
      DeleteAbsent(env[1..], k);
    }
  }

  /** Deleting a present key cuts out exactly the entry at its position. */
  lemma {:induction false} DeleteAt(env: Env, k: string)
    requires Has(env, k)
    ensures Delete(env, k) == env[..IndexOf(env, k)] + env[IndexOf(env, k) + 1..]
  {
    var i := IndexOf(env, k);
    if env[0].name == k {
      assert i == 0 && Delete(env, k) == env[1..];
      assert env[..0] + env[1..] == env[1..];
    } else {
      HasTail(env, k);
      var j := IndexOf(env[1..], k);
      assert i == j + 1;
      DeleteAt(env[1..], k);
      DeleteAtStep(env, k, j);
      assert Delete(env, k) == env[..i] + env[i + 1..];
    }
  }

  lemma DeleteAtStep(env: Env, k: string, j: nat)
    requires env != [] && env[0].name != k && j + 1 < |env|
    requires Delete(env[1..], k) == env[1..][..j] + env[1..][j + 1..]
    ensures Delete(env, k) == env[..j + 1] + env[j + 2..]
  {
    var t := env[1..];
    assert Delete(env, k) == [env[0]] + (t[..j] + t[j + 1..]);
    assert [env[0]] + t[..j] == env[..j + 1];
    assert t[j + 1..] == env[j + 2..];
    AssocEntries([env[0]], t[..j], t[j + 1..]);
  }

  lemma AssocEntries(a: Env, b: Env, c: Env)
    ensures a + (b + c) == (a + b) + c
  {
  }

  lemma {:induction false} DeleteSubset(env: Env, k: string)
    ensures multiset(Delete(env, k)) <= multiset(env)
  {
    if env != [] {
      DeleteSubset(env[1..], k);
      assert env == [env[0]] + env[1..];
    }
  }

  lemma {:induction false} DeleteLookup(env: Env, k: string, k': string)
    requires DistinctNames(env)
    ensures Lookup(Delete(env, k), k') == if k' == k then None else Lookup(env, k')
  {
    if env != [] {
      if env[0].name == k {
        if k' == k {
          LookupFound(env[1..], k);
        }
      } else {
        DeleteLookup(env[1..], k, k');
      }
    }
  }

  lemma {:induction false} DeleteDistinct(env: Env, k: string)
    requires DistinctNames(env)
    ensures DistinctNames(Delete(env, k))
  {
    if env != [] && env[0].name != k {
      DeleteDistinct(env[1..], k);
      var rest := Delete(env[1..], k);
      DeleteSubset(env[1..], k);
      forall i | 0 <= i < |rest| ensures rest[i].name != env[0].name {
        assert rest[i] in multiset(env[1..]);
        HeadNameFresh(env, rest[i]);
      }
    }
  }

  /** In a dict, no later entry shares the first entry's name. */
  lemma HeadNameFresh(env: Env, e: Entry)
    requires DistinctNames(env) && env != [] && e in env[1..]
    ensures e.name != env[0].name
  {
    var m :| 0 <= m < |env[1..]| && env[1..][m] == e;
    assert env[m + 1] == e;
  }

  // ---------------------------------------------------------------------------
  // `dict(sorted(env.items()))`: Python orders strings by code points, lexicographically.

  /** `a < b` on Python strings. */
  predicate Lt(a: string, b: string) {
    b != [] && (a == [] || a[0] < b[0] || (a[0] == b[0] && Lt(a[1..], b[1..])))
  }

  lemma {:induction false} LtIrreflexive(a: string)
    ensures !Lt(a, a)
  {
    if a != [] { LtIrreflexive(a[1..]); }
  }

  lemma {:induction false} LtTransitive(a: string, b: string, c: string)
    requires Lt(a, b) && Lt(b, c)
    ensures Lt(a, c)
  {
    if a != [] && a[0] == b[0] && b[0] == c[0] {
      LtTransitive(a[1..], b[1..], c[1..]);
    }
  }

  lemma {:induction false} LtTotal(a: string, b: string)
    requires a != b
    ensures Lt(a, b) || Lt(b, a)
  {
    if a != [] && b != [] && a[0] == b[0] {
      assert a == [a[0]] + a[1..] && b == [b[0]] + b[1..];
      LtTotal(a[1..], b[1..]);
    }
  }

  predicate StrictlySorted(env: Env) {
    forall i, j :: 0 <= i < j < |env| ==> Lt(env[i].name, env[j].name)
  }

  /** Insertion of one entry into a list sorted by name. */
  function Insert(x: Entry, s: Env): Env {
    if s == [] then [x]
    else if Lt(x.name, s[0].name) then [x] + s
    else [s[0]] + Insert(x, s[1..])
  }

  lemma {:induction false} InsertPermutes(x: Entry, s: Env)
    ensures multiset(Insert(x, s)) == multiset(s) + multiset{x}
  {
    if s != [] && !Lt(x.name, s[0].name) {
      InsertPermutes(x, s[1..]);
      assert s == [s[0]] + s[1..];
    }
  }

  lemma {:induction false} InsertSorted(x: Entry, s: Env)
    requires StrictlySorted(s)
    requires forall e | e in s :: e.name != x.name
    ensures StrictlySorted(Insert(x, s))
  {
    if s == [] {
    } else if Lt(x.name, s[0].name) {
      forall j | 0 <= j < |s| ensures Lt(x.name, s[j].name) {
        if j > 0 { LtTransitive(x.name, s[0].name, s[j].name); }
      }
    } else {
      var rest := Insert(x, s[1..]);
      assert forall e | e in s[1..] :: e in s;
      InsertSorted(x, s[1..]);
      InsertPermutes(x, s[1..]);
      LtTotal(s[0].name, x.name);
      forall j | 0 <= j < |rest| ensures Lt(s[0].name, rest[j].name) {
        assert rest[j] in multiset(rest);
        if rest[j] != x {
          assert rest[j] in multiset(s[1..]);
          SortedHead(s, rest[j]);
        }
      }
    }
  }

  lemma DistinctTail(env: Env)
    requires DistinctNames(env) && env != []
    ensures DistinctNames(env[1..])
  {
    forall i, j | 0 <= i < j < |env| - 1 ensures env[1..][i].name != env[1..][j].name {
      assert env[1..][i] == env[i + 1] && env[1..][j] == env[j + 1];
    }
  }

  /** In a sorted list every later entry comes after the first. */
  lemma SortedHead(s: Env, e: Entry)
    requires StrictlySorted(s) && s != [] && e in s[1..]
    ensures Lt(s[0].name, e.name)
  {
    var m :| 0 <= m < |s[1..]| && s[1..][m] == e;
    assert s[m + 1] == e;
  }

  /** `sorted(env.items())` for a dict. */
  function Sort(env: Env): Env {
    if env == [] then [] else Insert(env[0], Sort(env[1..]))
  }

  /** Sorting a dict's items gives a permutation of them, strictly ordered by name. */
  lemma {:induction false} SortCorrect(env: Env)
    requires DistinctNames(env)
    ensures multiset(Sort(env)) == multiset(env)
    ensures StrictlySorted(Sort(env))
  {
    if env != [] {
      var rest := Sort(env[1..]);
      DistinctTail(env);
      SortCorrect(env[1..]);
      InsertPermutes(env[0], rest);
      assert multiset(env) == multiset(env[1..]) + multiset{env[0]} by {
        assert env == [env[0]] + env[1..];
      }
      assert forall e | e in rest :: e.name != env[0].name by {
        forall e | e in rest ensures e.name != env[0].name {
          assert e in multiset(env[1..]);
          HeadNameFresh(env, e);
        }
      }
      InsertSorted(env[0], rest);
    }
  }

  /** Re-sorting a dict changes its order, not its contents. */
  lemma SortKeepsLookup(env: Env, k: string)
    requires DistinctNames(env)
    ensures DistinctNames(Sort(env)) && StrictlySorted(Sort(env))
    ensures Lookup(Sort(env), k) == Lookup(env, k)
  {
    var r := Sort(env);
    SortCorrect(env);
    assert DistinctNames(r) by {
      forall i, j | 0 <= i < j < |r| ensures r[i].name != r[j].name {
        LtIrreflexive(r[i].name);
      }
    }
    match Lookup(env, k)
    case Some(v) =>
      LookupIn(env, k, v);
      assert Entry(k, v) in multiset(r);
      LookupIn(r, k, v);
    case None =>
      if Lookup(r, k).Some? {
        var v := Lookup(r, k).value;
        LookupIn(r, k, v);
        assert Entry(k, v) in multiset(env);
        LookupIn(env, k, v);
      }
  }
}
