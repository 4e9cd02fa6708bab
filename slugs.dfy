/**
 * Collision-avoiding anchor ids for session titles (`slugForTitle` and its
 * render-scoped `slugs` table). A title's base id comes from a slug library
 * that is not part of this model, so it enters as the function `baseOf`.
 * The candidates for a base are `base`, `base1`, `base2`, ... and the first
 * one not already taken is issued.
 */
module Slugs {
  import opened Decimal

  /** The `k`-th id tried for `base`: `base` itself, then `base` + "k". */
  function Candidate(base: string, k: nat): string {
    if k == 0 then base else base + DecimalString(k)
  }

  /** Different probe counts never produce the same candidate. */
  lemma CandidateInjective(base: string, j: nat, k: nat)
    requires Candidate(base, j) == Candidate(base, k)
    ensures j == k
  {
    assert |Candidate(base, j)| == |base| <==> j == 0;
    assert |Candidate(base, k)| == |base| <==> k == 0;
    if j != 0 && k != 0 {
      assert DecimalString(j) == Candidate(base, j)[|base|..];
      assert DecimalString(k) == Candidate(base, k)[|base|..];
      DecimalStringInjective(j, k);
    }
  }

  /** The first `k` candidates for `base`. */
  ghost function Candidates(base: string, k: nat): set<string> {
    if k == 0 then {} else Candidates(base, k - 1) + {Candidate(base, k - 1)}
  }

  /** A candidate is not among the candidates before it. */
  lemma {:induction false} CandidateNotEarlier(base: string, n: nat, k: nat)
    requires k <= n
    ensures Candidate(base, n) !in Candidates(base, k)
  {
    if k > 0 {
      CandidateNotEarlier(base, n, k - 1);
      if Candidate(base, n) == Candidate(base, k - 1) {
        CandidateInjective(base, n, k - 1);
      }
    }
  }

  /** Each of the first `k` candidates is among them. */
  lemma {:induction false} CandidatesHold(base: string, k: nat)
    ensures forall j :: 0 <= j < k ==> Candidate(base, j) in Candidates(base, k)
  {
    if k > 0 {
      CandidatesHold(base, k - 1);
    }
  }

  lemma {:induction false} CandidatesSize(base: string, k: nat)
    ensures |Candidates(base, k)| == k
  {
    if k > 0 {
      CandidatesSize(base, k - 1);
      CandidateNotEarlier(base, k - 1, k - 1);
    }
  }

  /** The first `k` candidates lie in `taken` when each of them does. */
  lemma {:induction false} CandidatesWithin(taken: set<string>, base: string, k: nat)
    requires forall j :: 0 <= j < k ==> Candidate(base, j) in taken
    ensures Candidates(base, k) <= taken
  {
    if k > 0 {
      CandidatesWithin(taken, base, k - 1);
    }
  }

  /**
   * When the first `k` candidates are all taken, `taken` has at least `k`
   * elements: the probing can run at most `|taken|` times.
   */
  lemma ProbeBound(taken: set<string>, base: string, k: nat)
    requires forall j :: 0 <= j < k ==> Candidate(base, j) in taken
    ensures k <= |taken|
  {
    CandidatesSize(base, k);
    CandidatesWithin(taken, base, k);
    SubsetSize(Candidates(base, k), taken);
  }

  lemma {:induction false} SubsetSize<T>(a: set<T>, b: set<T>)
    requires a <= b
    ensures |a| <= |b|
  {
    if a != {} {
      var x :| x in a;
      SubsetSize(a - {x}, b - {x});
    }
  }

  /** The outcome of probing: the id found and how many times the suffix was incremented. */
  datatype Probe = Probe(id: string, suffix: nat)

  /**
   * Probing from the `k`-th candidate on, as the `while (id in slugs)` loop
   * does. The bound `|taken|` only serves termination: ProbeFromIsLeast
   * shows that the search always stops on a free candidate before it.
   */
  function ProbeFrom(taken: set<string>, base: string, k: nat): Probe
    decreases |taken| - k
  {
    if k >= |taken| || Candidate(base, k) !in taken then Probe(Candidate(base, k), k)
    else ProbeFrom(taken, base, k + 1)
  }

  /**
   * Probing ends on a free candidate, within `|taken|` increments, after
   * finding every earlier candidate taken.
   */
  lemma {:induction false} ProbeFromIsLeast(taken: set<string>, base: string, k: nat)
    requires forall j :: 0 <= j < k ==> Candidate(base, j) in taken
    ensures var r := ProbeFrom(taken, base, k);
      && r.id == Candidate(base, r.suffix)
      && k <= r.suffix <= |taken|
      && r.id !in taken
      && forall j :: 0 <= j < r.suffix ==> Candidate(base, j) in taken
    decreases |taken| - k
  {
    ProbeBound(taken, base, k);
    if Candidate(base, k) in taken {
      ProbeBound(taken, base, k + 1);
      ProbeFromIsLeast(taken, base, k + 1);
    }
  }

  /** The number of times `slugForTitle` increments its suffix. */
  function FreeSuffix(taken: set<string>, base: string): nat {
    ProbeFrom(taken, base, 0).suffix
  }

  /** The id issued for `base` when the ids in `taken` are in use. */
  function FirstFree(taken: set<string>, base: string): string {
    ProbeFrom(taken, base, 0).id
  }

  /**
   * The probe count is exactly the least `k` whose candidate is free: an
   * independent characterisation of the search.
   */
  lemma FreeSuffixIsLeast(taken: set<string>, base: string, k: nat)
    ensures FirstFree(taken, base) == Candidate(base, FreeSuffix(taken, base))
    ensures k == FreeSuffix(taken, base)
        <==> Candidate(base, k) !in taken && forall j :: 0 <= j < k ==> Candidate(base, j) in taken
  {
    ProbeFromIsLeast(taken, base, 0);
  }

  /**
   * The issued id is not taken. It is `base` when that is free, and
   * otherwise `base` + "k" for the least `k >= 1` with `base` + "k" free.
   */
  lemma FirstFreeIsLeastUnused(taken: set<string>, base: string)
    ensures FirstFree(taken, base) !in taken
    ensures base !in taken ==> FirstFree(taken, base) == base
    ensures base in taken ==>
      var k := FreeSuffix(taken, base);
      && k >= 1
      && FirstFree(taken, base) == base + DecimalString(k)
      && forall j :: 1 <= j < k ==> base + DecimalString(j) in taken
  {
    var k := FreeSuffix(taken, base);
    ProbeFromIsLeast(taken, base, 0);
    if base in taken {
      assert k != 0;
      forall j | 1 <= j < k
        ensures base + DecimalString(j) in taken
      {
        assert Candidate(base, j) in taken;
      }
    } else {
      FreeSuffixIsLeast(taken, base, 0);
    }
  }

  /** The render-scoped table of issued ids, each mapped to its title. */
  class SlugRegistry {
    const baseOf: string -> string
    var slugs: map<string, string>

    constructor (baseOf: string -> string)
      ensures this.baseOf == baseOf
      ensures slugs == map[]
    {
      this.baseOf := baseOf;
      slugs := map[];
    }

    /**
     * Issues the first free candidate for the title's base and records it.
     * The loop runs at most `|slugs|` times.
     */
    method SlugForTitle(title: string) returns (id: string)
      modifies this`slugs
      ensures id !in old(slugs)
      ensures id == FirstFree(old(slugs).Keys, baseOf(title))
      ensures slugs == old(slugs)[id := title]
    {
      var base := baseOf(title);
      id := base;
      var suffix: nat := 0;
      while id in slugs
        invariant id == Candidate(base, suffix)
        invariant forall j :: 0 <= j < suffix ==> Candidate(base, j) in slugs
        invariant slugs == old(slugs)
        invariant suffix <= |slugs|
        decreases |slugs| - suffix
      {
        ProbeBound(slugs.Keys, base, suffix + 1);
        suffix := suffix + 1;
        id := base + DecimalString(suffix);
      }
      FreeSuffixIsLeast(slugs.Keys, base, suffix);
      slugs := slugs[id := title];
    }
  }

  /** The ids and final table produced by issuing ids for `titles` in order. */
  datatype Issued = Issued(ids: seq<string>, table: map<string, string>)

  /** Successive `slugForTitle` calls, starting from table `m`. */
  function IssueAll(baseOf: string -> string, m: map<string, string>, titles: seq<string>): (r: Issued)
    ensures |r.ids| == |titles|
    decreases |titles|
  {
    if titles == [] then Issued([], m)
    else
      var id := FirstFree(m.Keys, baseOf(titles[0]));
      var rest := IssueAll(baseOf, m[id := titles[0]], titles[1..]);
      Issued([id] + rest.ids, rest.table)
  }

  /** Ids issued in one render are new to the starting table and pairwise distinct. */
  lemma {:induction false} IssueAllDistinct(baseOf: string -> string, m: map<string, string>, titles: seq<string>)
    ensures forall a :: 0 <= a < |titles| ==> IssueAll(baseOf, m, titles).ids[a] !in m
    ensures forall a, b :: 0 <= a < b < |titles| ==> IssueAll(baseOf, m, titles).ids[a] != IssueAll(baseOf, m, titles).ids[b]
    decreases |titles|
  {
    if titles != [] {
      var id := FirstFree(m.Keys, baseOf(titles[0]));
      var m' := m[id := titles[0]];
      IssueAllDistinct(baseOf, m', titles[1..]);
      var rest := IssueAll(baseOf, m', titles[1..]).ids;
      IssueAllCons(baseOf, m, titles, id);
      var ids := IssueAll(baseOf, m, titles).ids;
      FirstFreeIsLeastUnused(m.Keys, baseOf(titles[0]));
      assert id !in m.Keys && id in m';
      forall a | 0 < a < |ids|
        ensures ids[a] == rest[a - 1] && ids[a] !in m && ids[a] != id
      {
        assert rest[a - 1] !in m';
      }
      forall a, b | 0 <= a < b < |ids|
        ensures ids[a] != ids[b]
      {
        if a > 0 {
          assert rest[a - 1] != rest[b - 1];
        }
      }
    }
  }

  /**
   * After issuing, the table keeps every earlier entry, maps each issued id
   * to its title, and holds nothing else.
   */
  lemma {:induction false} IssueAllTable(baseOf: string -> string, m: map<string, string>, titles: seq<string>)
    ensures var r := IssueAll(baseOf, m, titles);
      && (forall k :: k in m ==> k in r.table && r.table[k] == m[k])
      && (forall a :: 0 <= a < |r.ids| ==> r.ids[a] in r.table && r.table[r.ids[a]] == titles[a])
      && (forall k :: k in r.table ==> k in m || k in r.ids)
    decreases |titles|
  {
    if titles != [] {
      var id := FirstFree(m.Keys, baseOf(titles[0]));
      var m' := m[id := titles[0]];
      FirstFreeIsLeastUnused(m.Keys, baseOf(titles[0]));
      IssueAllTable(baseOf, m', titles[1..]);
      IssueAllCons(baseOf, m, titles, id);
      var rest := IssueAll(baseOf, m', titles[1..]);
      var r := IssueAll(baseOf, m, titles);
      assert forall a :: 0 < a < |r.ids| ==> r.ids[a] == rest.ids[a - 1];
      assert forall k :: k in rest.ids ==> k in r.ids;
    }
  }

  /** Issuing for one more title appends the first free id for it and records it. */
  lemma IssueAllSnoc(baseOf: string -> string, m: map<string, string>, titles: seq<string>, title: string)
    ensures var before := IssueAll(baseOf, m, titles);
      var id := FirstFree(before.table.Keys, baseOf(title));
      IssueAll(baseOf, m, titles + [title]) == Issued(before.ids + [id], before.table[id := title])
  {
    var before := IssueAll(baseOf, m, titles);
    IssueAllAppend(baseOf, m, titles, [title]);
    assert [title][1..] == [];
  }

  /** Issuing for `a + b` is issuing for `a`, then for `b` from the table that leaves. */
  lemma {:induction false} IssueAllAppend(baseOf: string -> string, m: map<string, string>, a: seq<string>, b: seq<string>)
    ensures var first := IssueAll(baseOf, m, a);
      var second := IssueAll(baseOf, first.table, b);
      IssueAll(baseOf, m, a + b) == Issued(first.ids + second.ids, second.table)
    decreases |a|
  {
    if a == [] {
      assert a + b == b;
    } else {
      var id := FirstFree(m.Keys, baseOf(a[0]));
      var m' := m[id := a[0]];
      IssueAllAppend(baseOf, m', a[1..], b);
      IssueAllStep(baseOf, m, a, b);
      var first := IssueAll(baseOf, m', a[1..]);
      var second := IssueAll(baseOf, first.table, b);
      JoinIssued(id, IssueAll(baseOf, m, a), IssueAll(baseOf, m, a + b), first, IssueAll(baseOf, m', a[1..] + b), second);
    }
  }

  /** One unfolding of IssueAll on a non-empty prefix, both alone and followed by more titles. */
  lemma IssueAllStep(baseOf: string -> string, m: map<string, string>, a: seq<string>, b: seq<string>)
    requires a != []
    ensures var id := FirstFree(m.Keys, baseOf(a[0]));
      var m' := m[id := a[0]];
      IssueAll(baseOf, m, a) == Issued([id] + IssueAll(baseOf, m', a[1..]).ids, IssueAll(baseOf, m', a[1..]).table) &&
      IssueAll(baseOf, m, a + b) == Issued([id] + IssueAll(baseOf, m', a[1..] + b).ids, IssueAll(baseOf, m', a[1..] + b).table)
  {
    assert (a + b)[0] == a[0] && (a + b)[1..] == a[1..] + b;
  }

  /** Issuing for a non-empty list issues for its first title, then for the rest from the updated table. */
  lemma IssueAllCons(baseOf: string -> string, m: map<string, string>, titles: seq<string>, id: string)
    requires titles != [] && id == FirstFree(m.Keys, baseOf(titles[0]))
    ensures IssueAll(baseOf, m, titles).ids == [id] + IssueAll(baseOf, m[id := titles[0]], titles[1..]).ids
    ensures IssueAll(baseOf, m, titles).table == IssueAll(baseOf, m[id := titles[0]], titles[1..]).table
  {
  }

  /** Reassociates the ids of two consecutive issuing runs behind a common first id. */
  lemma JoinIssued(id: string, whole: Issued, wholeJoined: Issued, first: Issued, joined: Issued, second: Issued)
    requires whole == Issued([id] + first.ids, first.table)
    requires wholeJoined == Issued([id] + joined.ids, joined.table)
    requires joined == Issued(first.ids + second.ids, second.table)
    ensures wholeJoined == Issued(whole.ids + second.ids, second.table)
  {
    assert [id] + (first.ids + second.ids) == ([id] + first.ids) + second.ids;
  }

  /**
   * Titles that all share `base`, issued into a table holding exactly the
   * first `n` candidates for it, get the next candidates in order:
   * `base` + "n", `base` + "n+1", ... (from an empty table: `base`, `base1`, `base2`, ...).
   */
  lemma {:induction false} SameBaseInOrder(baseOf: string -> string, base: string, m: map<string, string>, n: nat, titles: seq<string>)
    requires m.Keys == Candidates(base, n)
    requires forall t :: t in titles ==> baseOf(t) == base
    ensures forall k :: 0 <= k < |titles| ==> IssueAll(baseOf, m, titles).ids[k] == Candidate(base, n + k)
    decreases |titles|
  {
    if titles != [] {
      assert titles[0] in titles;
      SameBaseStep(baseOf, base, m, n, titles[0]);
      var m' := m[Candidate(base, n) := titles[0]];
      assert forall t :: t in titles[1..] ==> t in titles;
      SameBaseInOrder(baseOf, base, m', n + 1, titles[1..]);
      IssueAllCons(baseOf, m, titles, Candidate(base, n));
      ShiftedCandidates(IssueAll(baseOf, m, titles).ids, IssueAll(baseOf, m', titles[1..]).ids, base, n);
    }
  }

  /** Prefixing the `n`-th candidate to a run of consecutive candidates from `n + 1` on. */
  lemma ShiftedCandidates(ids: seq<string>, rest: seq<string>, base: string, n: nat)
    requires ids == [Candidate(base, n)] + rest
    requires forall k :: 0 <= k < |rest| ==> rest[k] == Candidate(base, n + 1 + k)
    ensures forall k :: 0 <= k < |ids| ==> ids[k] == Candidate(base, n + k)
  {
    forall k | 0 < k < |ids|
      ensures ids[k] == Candidate(base, n + k)
    {
      assert ids[k] == rest[k - 1];
    }
  }

  /** With exactly the first `n` candidates taken, a title with that base gets the `n`-th, and then the first `n + 1` are taken. */
  lemma SameBaseStep(baseOf: string -> string, base: string, m: map<string, string>, n: nat, title: string)
    requires m.Keys == Candidates(base, n)
    requires baseOf(title) == base
    ensures FirstFree(m.Keys, baseOf(title)) == Candidate(base, n)
    ensures m[Candidate(base, n) := title].Keys == Candidates(base, n + 1)
  {
    CandidateNotEarlier(base, n, n);
    CandidatesHold(base, n);
    FreeSuffixIsLeast(m.Keys, base, n);
    assert Candidates(base, n + 1) == Candidates(base, n) + {Candidate(base, n)};
    assert m[Candidate(base, n) := title].Keys == m.Keys + {Candidate(base, n)};
  }

  /**
   * Three titles with the same base, issued into an empty table, get `base`,
   * `base1` and `base2` (an empty base gives "", "1", "2").
   */
  lemma SameBaseThrice(baseOf: string -> string, t1: string, t2: string, t3: string)
    requires baseOf(t1) == baseOf(t2) == baseOf(t3)
    ensures var base := baseOf(t1);
      IssueAll(baseOf, map[], [t1, t2, t3]).ids == [base, base + "1", base + "2"]
  {
    var base := baseOf(t1);
    assert DecimalString(1) == "1" && DecimalString(2) == "2";
    assert Candidate(base, 1) == base + "1" && Candidate(base, 2) == base + "2";
    assert base + "1" != base + "2" by {
      assert (base + "1")[|base|] != (base + "2")[|base|];
    }
    var m0: map<string, string> := map[];
    FreeSuffixIsLeast(m0.Keys, base, 0);
    var m1 := m0[base := t1];
    FreeSuffixIsLeast(m1.Keys, base, 1);
    assert FirstFree(m1.Keys, base) == base + "1";
    var m2 := m1[base + "1" := t2];
    FreeSuffixIsLeast(m2.Keys, base, 2);
    assert FirstFree(m2.Keys, base) == base + "2";
    var r2 := IssueAll(baseOf, m2, [t3]);
    assert [t3][1..] == [];
    assert r2.ids == [base + "2"];
    var r1 := IssueAll(baseOf, m1, [t2, t3]);
    assert [t2, t3][1..] == [t3];
    assert r1.ids == [base + "1"] + r2.ids;
    assert [t1, t2, t3][1..] == [t2, t3];
    assert IssueAll(baseOf, m0, [t1, t2, t3]).ids == [base] + r1.ids;
  }

  /**
   * A title whose base happens to be `base1` between two titles with base
   * `base` takes that candidate, so the second `base` title gets `base2`.
   */
  lemma InterleavedBases(baseOf: string -> string, t1: string, t2: string, t3: string)
    requires baseOf(t1) == baseOf(t3) && baseOf(t2) == baseOf(t1) + "1"
    ensures var base := baseOf(t1);
      IssueAll(baseOf, map[], [t1, t2, t3]).ids == [base, base + "1", base + "2"]
  {
    var base := baseOf(t1);
    assert DecimalString(1) == "1" && DecimalString(2) == "2";
    assert Candidate(base, 1) == base + "1" && Candidate(base, 2) == base + "2";
    assert base + "1" != base + "2" by {
      assert (base + "1")[|base|] != (base + "2")[|base|];
    }
    assert base != base + "1";
    var m0: map<string, string> := map[];
    FreeSuffixIsLeast(m0.Keys, base, 0);
    var m1 := m0[base := t1];
    FreeSuffixIsLeast(m1.Keys, base + "1", 0);
    assert FirstFree(m1.Keys, base + "1") == base + "1";
    var m2 := m1[base + "1" := t2];
    FreeSuffixIsLeast(m2.Keys, base, 2);
    assert FirstFree(m2.Keys, base) == base + "2";
    var r2 := IssueAll(baseOf, m2, [t3]);
    assert [t3][1..] == [];
    assert r2.ids == [base + "2"];
    var r1 := IssueAll(baseOf, m1, [t2, t3]);
    assert [t2, t3][1..] == [t3];
    assert r1.ids == [base + "1"] + r2.ids;
    assert [t1, t2, t3][1..] == [t2, t3];
    assert IssueAll(baseOf, m0, [t1, t2, t3]).ids == [base] + r1.ids;
  }

  /** The id issued at position `i` is the first free one for its title against the table the earlier titles left. */
  lemma IssuedAt(baseOf: string -> string, m: map<string, string>, titles: seq<string>, i: nat)
    requires i < |titles|
    ensures IssueAll(baseOf, m, titles).ids[i]
      == FirstFree(IssueAll(baseOf, m, titles[..i]).table.Keys, baseOf(titles[i]))
  {
    var first := IssueAll(baseOf, m, titles[..i]);
    assert titles == titles[..i] + titles[i..];
    IssueAllAppend(baseOf, m, titles[..i], titles[i..]);
    IssueAllCons(baseOf, first.table, titles[i..], FirstFree(first.table.Keys, baseOf(titles[i])));
  }

  /** The table only grows as more titles are issued for. */
  lemma TableGrows(baseOf: string -> string, m: map<string, string>, titles: seq<string>, i: nat, j: nat)
    requires i <= j <= |titles|
    ensures IssueAll(baseOf, m, titles[..i]).table.Keys <= IssueAll(baseOf, m, titles[..j]).table.Keys
  {
    var first := IssueAll(baseOf, m, titles[..i]);
    assert titles[..j] == titles[..i] + titles[i..j];
    IssueAllAppend(baseOf, m, titles[..i], titles[i..j]);
    IssueAllTable(baseOf, first.table, titles[i..j]);
  }

  /** The id issued at position `i` is in the table once title `i` has been issued for. */
  lemma IssuedRecorded(baseOf: string -> string, m: map<string, string>, titles: seq<string>, i: nat)
    requires i < |titles|
    ensures FirstFree(IssueAll(baseOf, m, titles[..i]).table.Keys, baseOf(titles[i]))
      in IssueAll(baseOf, m, titles[..i + 1]).table
  {
    assert titles[..i + 1] == titles[..i] + [titles[i]];
    IssueAllSnoc(baseOf, m, titles[..i], titles[i]);
  }

  /**
   * For any titles, mixed bases included: of two titles with the same base,
   * the later one gets a strictly larger suffix. Each id is the candidate
   * for the suffix found against the table its predecessors left.
   */
  lemma SameBaseLaterSuffix(baseOf: string -> string, m: map<string, string>, titles: seq<string>, a: nat, b: nat)
    requires a < b < |titles| && baseOf(titles[a]) == baseOf(titles[b])
    ensures var base := baseOf(titles[a]);
      var sa := FreeSuffix(IssueAll(baseOf, m, titles[..a]).table.Keys, base);
      var sb := FreeSuffix(IssueAll(baseOf, m, titles[..b]).table.Keys, base);
      && IssueAll(baseOf, m, titles).ids[a] == Candidate(base, sa)
      && IssueAll(baseOf, m, titles).ids[b] == Candidate(base, sb)
      && sa < sb
  {
    var base := baseOf(titles[a]);
    var ta := IssueAll(baseOf, m, titles[..a]).table.Keys;
    var tb := IssueAll(baseOf, m, titles[..b]).table.Keys;
    var sa := FreeSuffix(ta, base);
    var sb := FreeSuffix(tb, base);
    IssuedAt(baseOf, m, titles, a);
    IssuedAt(baseOf, m, titles, b);
    FreeSuffixIsLeast(ta, base, sa);
    FreeSuffixIsLeast(tb, base, sb);
    IssuedRecorded(baseOf, m, titles, a);
    TableGrows(baseOf, m, titles, a, a + 1);
    TableGrows(baseOf, m, titles, a + 1, b);
    assert Candidate(base, sa) in tb;
  }

  /**
   * The names a plain object literal inherits from Object.prototype. The
   * `in` operator also answers true for these, although no entry was ever
   * recorded under them.
   */
  const ObjectPrototypeNames: set<string> := {
    "constructor", "hasOwnProperty", "isPrototypeOf", "propertyIsEnumerable",
    "toLocaleString", "toString", "valueOf", "__proto__",
    "__defineGetter__", "__defineSetter__", "__lookupGetter__", "__lookupSetter__"
  }

  /** The ids that `id in slugs` reports as taken when `slugs` is an object literal. */
  function TakenAsWritten(slugs: map<string, string>): set<string>
  {
    slugs.Keys + ObjectPrototypeNames
  }

  /** The id `slugForTitle` issues as written, probing with `in` on the object. */
  function SlugAsWritten(slugs: map<string, string>, base: string): (id: string)
    ensures id !in slugs && id !in ObjectPrototypeNames
  {
    FirstFreeIsLeastUnused(TakenAsWritten(slugs), base);
    FirstFree(TakenAsWritten(slugs), base)
  }

  /**
   * A title whose base is "constructor" (the slug of "Constructor") gets
   * "constructor1" from the code as written, even on an empty table, where
   * the unused id "constructor" is the one meant.
   */
  lemma ConstructorBaseSkipped()
    ensures SlugAsWritten(map[], "constructor") == "constructor1"
    ensures FirstFree({}, "constructor") == "constructor"
  {
    var base := "constructor";
    var taken := TakenAsWritten(map[]);
    assert Candidate(base, 1) == "constructor1" by {
      assert DecimalString(1) == "1";
    }
    PrototypeNameFacts();
    FreeSuffixIsLeast(taken, base, 1);
    FreeSuffixIsLeast({}, base, 0);
  }

  lemma PrototypeNameFacts()
    ensures "constructor" in TakenAsWritten(map[])
    ensures "constructor1" !in TakenAsWritten(map[])
  {
    assert forall name :: name in ObjectPrototypeNames ==> |name| != 12;
  }
}
