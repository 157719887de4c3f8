/** The suite registry: a mutable dictionary, and the views of it that reports are made from. */
module CryptoSuites {
  import opened Basics
  import opened Ordering

  datatype Kind = Kem | Sig | Aead

  datatype Status = Classical | HybridPq | Pq | Symmetric
  {
    /** The string value of the enumeration. */
    function Value(): text {
      match this
      case Classical => Ascii("classical")
      case HybridPq => Ascii("hybrid-pq")
      case Pq => Ascii("pq")
      case Symmetric => Ascii("symmetric")
    }
  }

  datatype CryptoSuite = CryptoSuite(suiteId: text, kind: Kind, status: Status, active: bool, successorOf: Option<text>)
  {
    predicate IsQuantumResistant() {
      status.HybridPq? || status.Pq? || status.Symmetric?
    }
  }

  /** The order of `all_suites`: active first, then by status string, then by id. */
  predicate SuiteLeq(a: CryptoSuite, b: CryptoSuite) {
    if a.active != b.active then a.active
    else if a.status.Value() != b.status.Value() then LexLeq(a.status.Value(), b.status.Value())
    else LexLeq(a.suiteId, b.suiteId)
  }

  /** A Python dict: distinct keys in the order of their first insertion. */
  type Dict = seq<(text, CryptoSuite)>

  function Keys(d: Dict): set<text> {
    if d == [] then {} else {d[0].0} + Keys(d[1..])
  }

  /** Every key occurs once and is the id of its value. */
  ghost predicate WellFormed(d: Dict) {
    d != [] ==> d[0].0 !in Keys(d[1..]) && d[0].0 == d[0].1.suiteId && WellFormed(d[1..])
  }

  /** `d[k] = s`: a known key keeps its place. */
  function Assign(d: Dict, k: text, s: CryptoSuite): Dict {
    if d == [] then [(k, s)]
    else if d[0].0 == k then [(k, s)] + d[1..]
    else [d[0]] + Assign(d[1..], k, s)
  }

  function Lookup(d: Dict, k: text): Option<CryptoSuite> {
    if d == [] then None else if d[0].0 == k then Some(d[0].1) else Lookup(d[1..], k)
  }

  function Values(d: Dict): seq<CryptoSuite> {
    if d == [] then [] else [d[0].1] + Values(d[1..])
  }

  // ---- views ----

  function AllSuites(d: Dict): seq<CryptoSuite> {
    Sort(Values(d), SuiteLeq)
  }

  function OnlyActive(s: seq<CryptoSuite>): seq<CryptoSuite> {
    if s == [] then [] else if s[0].active then [s[0]] + OnlyActive(s[1..]) else OnlyActive(s[1..])
  }

  function ActiveSuites(d: Dict): seq<CryptoSuite> {
    OnlyActive(AllSuites(d))
  }

  function SuiteStatus(d: Dict, suiteId: text): Status {
    match Lookup(d, suiteId)
    case Some(s) => s.status
    case None => Classical
  }

  function IsQuantumResistant(d: Dict, suiteId: text): bool {
    match Lookup(d, suiteId)
    case Some(s) => s.IsQuantumResistant()
    case None => false
  }

  /** The module-level dictionary and the functions that change it. */
  class Registry {
    var suites: Dict

    constructor ()
      ensures suites == [] && WellFormed(suites)
    {
      suites := [];
    }

    method Register(suite: CryptoSuite) returns (r: CryptoSuite)
      requires WellFormed(suites)
      modifies this
      ensures r == suite && suites == Assign(old(suites), suite.suiteId, suite) && WellFormed(suites)
    {
      AssignWellFormed(suites, suite);
      suites := Assign(suites, suite.suiteId, suite);
      r := suite;
    }

    /** `_seed`: the suites of the package, registered in order. */
    method Seed()
      requires WellFormed(suites)
      modifies this
      ensures WellFormed(suites) && suites == RegisterAll(old(suites), SEED)
    {
      var todo := SEED;
      for i := 0 to |todo|
        invariant WellFormed(suites) && RegisterAll(suites, todo[i..]) == RegisterAll(old(suites), todo)
      {
        var s := Register(todo[i]);
        assert todo[i..][1..] == todo[i + 1..];
      }
    }
  }

  const SEED: seq<CryptoSuite> := SEED_CLASSICAL + SEED_MODERN + SEED_SIGNATURES

  const SEED_CLASSICAL: seq<CryptoSuite> := [
    CryptoSuite(Ascii("ed25519-v1"), Sig, Classical, true, None),
    CryptoSuite(Ascii("rsa4096-v1"), Sig, Classical, true, None),
    CryptoSuite(Ascii("rsa-pgp-wrap-v1"), Kem, Classical, true, None),
    CryptoSuite(Ascii("x25519-pgp-wrap-v1"), Kem, Classical, true, None)
  ]

  const SEED_MODERN: seq<CryptoSuite> := [
    CryptoSuite(Ascii("aes256-gcm-v1"), Aead, Symmetric, true, None),
    CryptoSuite(Ascii("x25519-mlkem768"), Kem, HybridPq, true, Some(Ascii("x25519-pgp-wrap-v1"))),
    CryptoSuite(Ascii("x25519-mlkem768-v2"), Kem, HybridPq, false, Some(Ascii("rsa-pgp-wrap-v1")))
  ]

  const SEED_SIGNATURES: seq<CryptoSuite> := [
    CryptoSuite(Ascii("mldsa65-ed25519-v2"), Sig, HybridPq, true, Some(Ascii("ed25519-v1"))),
    CryptoSuite(Ascii("slh-dsa-shake-256-v2"), Sig, Pq, false, None)
  ]

  function RegisterAll(d: Dict, suites: seq<CryptoSuite>): Dict
    decreases |suites|
  {
    if suites == [] then d else RegisterAll(Assign(d, suites[0].suiteId, suites[0]), suites[1..])
  }

  // ---- the dictionary behaves like a map ----

  lemma {:induction false} AssignWellFormed(d: Dict, s: CryptoSuite)
    requires WellFormed(d)
    ensures WellFormed(Assign(d, s.suiteId, s)) && Keys(Assign(d, s.suiteId, s)) == Keys(d) + {s.suiteId}
  {
    if d != [] && d[0].0 != s.suiteId {
      AssignWellFormed(d[1..], s);
      assert Assign(d, s.suiteId, s)[1..] == Assign(d[1..], s.suiteId, s);
    } else {
      assert Assign(d, s.suiteId, s)[1..] == d[(if d == [] then 0 else 1)..];
    }
  }

  lemma {:induction false} LookupAssign(d: Dict, k: text, s: CryptoSuite, j: text)
    ensures Lookup(Assign(d, k, s), j) == if j == k then Some(s) else Lookup(d, j)
  {
    if d != [] && d[0].0 != k {
      LookupAssign(d[1..], k, s, j);
      assert Assign(d, k, s)[1..] == Assign(d[1..], k, s);
    } else {
      assert Assign(d, k, s)[1..] == d[(if d == [] then 0 else 1)..];
    }
  }

  /** Under any sequence of registrations every key stays the id of its value. */
  lemma {:induction false} RegistrationsKeepInvariant(d: Dict, suites: seq<CryptoSuite>)
    requires WellFormed(d)
    ensures WellFormed(RegisterAll(d, suites))
    decreases |suites|
  {
    if suites != [] {
      AssignWellFormed(d, suites[0]);
      RegistrationsKeepInvariant(Assign(d, suites[0].suiteId, suites[0]), suites[1..]);
    }
  }

  /** The last suite of a sequence with a given id. */
  function LastWith(suites: seq<CryptoSuite>, id: text): Option<CryptoSuite> {
    if suites == [] then None
    else
      var later := LastWith(suites[1..], id);
      if later.Some? then later else if suites[0].suiteId == id then Some(suites[0]) else None
  }

  /** Last write wins, and ids never registered keep what they had. */
  lemma {:induction false} LastWriteWins(d: Dict, suites: seq<CryptoSuite>, id: text)
    ensures Lookup(RegisterAll(d, suites), id)
         == if LastWith(suites, id).Some? then LastWith(suites, id) else Lookup(d, id)
    decreases |suites|
  {
    if suites != [] {
      LookupAssign(d, suites[0].suiteId, suites[0], id);
      LastWriteWins(Assign(d, suites[0].suiteId, suites[0]), suites[1..], id);
    }
  }

  // ---- the sorted view ----

  lemma SuiteLeqIsTotalPreorder()
    ensures TotalPreorder(SuiteLeq)
  {
    hide LexLeq, Status.Value;
    LexIsTotalPreorder();
  }

  lemma SuiteLeqTies(a: CryptoSuite, b: CryptoSuite)
    requires SuiteLeq(a, b) && SuiteLeq(b, a)
    ensures a.suiteId == b.suiteId
  {
    hide LexLeq, Status.Value;
    LexIsTotalPreorder();
  }

  /** The value list holds exactly what the dictionary maps to, once each. */
  lemma {:induction false} ValuesAreLookups(d: Dict, s: CryptoSuite)
    requires WellFormed(d)
    ensures multiset(Values(d))[s] == if Lookup(d, s.suiteId) == Some(s) then 1 else 0
    ensures Lookup(d, s.suiteId).Some? <==> s.suiteId in Keys(d)
  {
    if d != [] {
      ValuesAreLookups(d[1..], s);
      assert multiset(Values(d)) == multiset{d[0].1} + multiset(Values(d[1..]));
    }
  }

  /** `all_suites` is a sorted permutation of the registered suites. */
  lemma AllSuitesSortedPermutation(d: Dict)
    ensures Sorted(AllSuites(d), SuiteLeq) && multiset(AllSuites(d)) == multiset(Values(d))
  {
    hide SuiteLeq;
    SuiteLeqIsTotalPreorder();
    SortSorts(Values(d), SuiteLeq);
    SortPermutes(Values(d), SuiteLeq);
  }

  lemma NoTies(d: Dict)
    requires WellFormed(d)
    ensures TieFree(AllSuites(d), SuiteLeq)
  {
    hide SuiteLeq, WellFormed, Sort, Lookup;
    AllSuitesSortedPermutation(d);
    var s := AllSuites(d);
    forall i, j | 0 <= i < j < |s| && SuiteLeq(s[j], s[i])
      ensures s[i] == s[j]
    {
      SuiteLeqTies(s[i], s[j]);
      assert s[i] in multiset(s) && s[j] in multiset(s);
      ValuesAreLookups(d, s[i]);
      ValuesAreLookups(d, s[j]);
    }
  }

  /** The view depends only on what the dictionary maps to, not on the order of the registrations. */
  lemma AllSuitesCanonical(d: Dict, e: Dict)
    requires WellFormed(d) && WellFormed(e) && forall id :: Lookup(d, id) == Lookup(e, id)
    ensures AllSuites(d) == AllSuites(e)
  {
    hide SuiteLeq, WellFormed, Sort, Lookup, Values, Sorted, TieFree;
    forall s
      ensures multiset(Values(d))[s] == multiset(Values(e))[s]
    {
      ValuesAreLookups(d, s);
      ValuesAreLookups(e, s);
    }
    assert multiset(Values(d)) == multiset(Values(e));
    AllSuitesSortedPermutation(d);
    AllSuitesSortedPermutation(e);
    NoTies(d);
    SortedUnique(AllSuites(d), AllSuites(e), SuiteLeq);
  }

  /** Two programmes of registrations with the same last suite for every id are reported alike. */
  lemma CallOrderIrrelevant(a: seq<CryptoSuite>, b: seq<CryptoSuite>)
    requires forall id :: LastWith(a, id) == LastWith(b, id)
    ensures AllSuites(RegisterAll([], a)) == AllSuites(RegisterAll([], b))
  {
    hide RegisterAll, LastWith, AllSuites;
    RegistrationsKeepInvariant([], a);
    RegistrationsKeepInvariant([], b);
    forall id
      ensures Lookup(RegisterAll([], a), id) == Lookup(RegisterAll([], b), id)
    {
      LastWriteWins([], a, id);
      LastWriteWins([], b, id);
    }
    AllSuitesCanonical(RegisterAll([], a), RegisterAll([], b));
  }

  lemma {:induction false} OnlyActiveOfSorted(s: seq<CryptoSuite>)
    requires Sorted(s, SuiteLeq)
    ensures var n := |OnlyActive(s)|;
      n <= |s| && OnlyActive(s) == s[..n] && (forall i :: n <= i < |s| ==> !s[i].active)
  {
    if s != [] {
      OnlyActiveOfSorted(s[1..]);
      if !s[0].active {
        assert forall i :: 0 < i < |s| ==> SuiteLeq(s[0], s[i]);
        assert forall i :: 0 <= i < |s[1..]| ==> s[1..][i] == s[i + 1];
        assert OnlyActive(s[1..]) == [] by {
          assert OnlyActive(s[1..]) != [] ==> s[1..][0] == OnlyActive(s[1..])[0];
          ActiveAreActive(s[1..]);
        }
      }
    }
  }

  lemma {:induction false} ActiveAreActive(s: seq<CryptoSuite>)
    ensures forall i :: 0 <= i < |OnlyActive(s)| ==> OnlyActive(s)[i].active
  {
    if s != [] {
      ActiveAreActive(s[1..]);
    }
  }

  /** `active_suites` is the leading part of `all_suites`, and nothing behind it is active. */
  lemma ActiveSuitesArePrefix(d: Dict)
    ensures var n := |ActiveSuites(d)|;
      && n <= |AllSuites(d)| && ActiveSuites(d) == AllSuites(d)[..n]
      && (forall i :: 0 <= i < n ==> AllSuites(d)[i].active)
      && (forall i :: n <= i < |AllSuites(d)| ==> !AllSuites(d)[i].active)
  {
    hide AllSuites;
    AllSuitesSortedPermutation(d);
    OnlyActiveOfSorted(AllSuites(d));
    ActiveAreActive(AllSuites(d));
  }

  /** The honesty gate: resistance is reported exactly for registered suites that are not classical. */
  lemma ResistantIffNotClassical(d: Dict, suiteId: text)
    requires WellFormed(d)
    ensures IsQuantumResistant(d, suiteId) <==> SuiteStatus(d, suiteId) != Classical
    ensures suiteId !in Keys(d) ==> !IsQuantumResistant(d, suiteId)
  {
    ValuesAreLookups(d, CryptoSuite(suiteId, Kem, Pq, true, None));
  }

  /** What is reported of every suite in the view is that suite's own status, and resistance is reported
      for three statuses of the four. An id outside the view is classical and not resistant. */
  lemma StatusReported(d: Dict, s: CryptoSuite, id: text)
    requires WellFormed(d)
    ensures s in AllSuites(d) ==>
              && SuiteStatus(d, s.suiteId) == s.status
              && (IsQuantumResistant(d, s.suiteId) <==> s.status in {HybridPq, Pq, Symmetric})
    ensures (forall t :: t in AllSuites(d) ==> t.suiteId != id) ==>
              SuiteStatus(d, id) == Classical && !IsQuantumResistant(d, id)
  {
    hide AllSuites, WellFormed, Values;
    InView(d, s);
    ValuesAreLookups(d, s);
    if Lookup(d, id).Some? {
      var t := Lookup(d, id).value;
      LookupKey(d, id);
      InView(d, t);
      ValuesAreLookups(d, t);
    }
  }

  lemma {:induction false} LookupKey(d: Dict, id: text)
    requires WellFormed(d) && Lookup(d, id).Some?
    ensures Lookup(d, id).value.suiteId == id
  {
    if d[0].0 != id {
      LookupKey(d[1..], id);
    }
  }

  /** After any sequence of registrations the status of an id is that of the last suite registered for it. */
  lemma StatusAfterRegistrations(d: Dict, suites: seq<CryptoSuite>, id: text)
    ensures SuiteStatus(RegisterAll(d, suites), id)
         == match LastWith(suites, id)
            case Some(s) => s.status
            case None => SuiteStatus(d, id)
    ensures IsQuantumResistant(RegisterAll(d, suites), id)
         == match LastWith(suites, id)
            case Some(s) => s.status in {HybridPq, Pq, Symmetric}
            case None => IsQuantumResistant(d, id)
  {
    hide RegisterAll, LastWith, Lookup;
    LastWriteWins(d, suites, id);
  }

  ghost predicate IdsDistinct(suites: seq<CryptoSuite>) {
    forall i, j :: 0 <= i < j < |suites| ==> suites[i].suiteId != suites[j].suiteId
  }

  lemma {:induction false} LastOfDistinct(suites: seq<CryptoSuite>, i: nat)
    requires IdsDistinct(suites) && i < |suites|
    ensures LastWith(suites, suites[i].suiteId) == Some(suites[i])
  {
    if i > 0 {
      LastOfDistinct(suites[1..], i - 1);
    } else {
      NoneWith(suites[1..], suites[0].suiteId);
    }
  }

  lemma {:induction false} NoneWith(suites: seq<CryptoSuite>, id: text)
    requires forall i :: 0 <= i < |suites| ==> suites[i].suiteId != id
    ensures LastWith(suites, id) == None
  {
    if suites != [] {
      NoneWith(suites[1..], id);
    }
  }

  /** First character, length and eighth character already tell the ids of the package apart. */
  function Mark(id: text): (int, int, int) {
    if |id| < 8 then (0, 0, 0) else (id[0], |id|, id[7])
  }

  lemma SeedMarks()
    ensures |SEED| == 9
    ensures Mark(SEED[0].suiteId) == ('e' as int, 10, '-' as int) && Mark(SEED[1].suiteId) == ('r' as int, 10, '-' as int)
    ensures Mark(SEED[2].suiteId) == ('r' as int, 15, '-' as int) && Mark(SEED[3].suiteId) == ('x' as int, 18, 'p' as int)
    ensures Mark(SEED[4].suiteId) == ('a' as int, 13, 'g' as int) && Mark(SEED[5].suiteId) == ('x' as int, 15, 'm' as int)
    ensures Mark(SEED[6].suiteId) == ('x' as int, 18, 'm' as int) && Mark(SEED[7].suiteId) == ('m' as int, 18, '-' as int)
    ensures Mark(SEED[8].suiteId) == ('s' as int, 20, '-' as int)
  {
  }

  lemma SeedDistinct()
    ensures |SEED| == 9 && IdsDistinct(SEED)
  {
    hide SEED, Mark;
    SeedMarks();
    forall i, j | 0 <= i < j < |SEED|
      ensures SEED[i].suiteId != SEED[j].suiteId
    {
      assert Mark(SEED[i].suiteId) != Mark(SEED[j].suiteId);
    }
  }

  /** After the package has registered its own suites, in whatever dictionary it found, each of them is
      reported with its status. */
  lemma SeedReport(d: Dict, i: nat)
    requires i < |SEED|
    ensures Lookup(RegisterAll(d, SEED), SEED[i].suiteId) == Some(SEED[i])
    ensures SuiteStatus(RegisterAll(d, SEED), SEED[i].suiteId) == SEED[i].status
  {
    hide SEED, RegisterAll, LastWith;
    SeedDistinct();
    LastOfDistinct(SEED, i);
    LastWriteWins(d, SEED, SEED[i].suiteId);
  }

  lemma {:induction false} OnlyActiveExact(s: seq<CryptoSuite>, x: CryptoSuite)
    ensures x in OnlyActive(s) <==> x in s && x.active
  {
    if s != [] {
      OnlyActiveExact(s[1..], x);
    }
  }

  /** The active view holds exactly the registered suites that are active. */
  lemma ActiveSuitesExact(d: Dict, s: CryptoSuite)
    requires WellFormed(d)
    ensures s in ActiveSuites(d) <==> s.active && Lookup(d, s.suiteId) == Some(s)
  {
    hide AllSuites, WellFormed, Values, OnlyActive, Lookup;
    OnlyActiveExact(AllSuites(d), s);
    InView(d, s);
    ValuesAreLookups(d, s);
  }

  /** Not all of them are classical: the package itself registers an active hybrid suite. */
  lemma ActiveNotAllClassical()
    ensures var s := CryptoSuite(Ascii("x25519-mlkem768"), Kem, HybridPq, true, Some(Ascii("x25519-pgp-wrap-v1")));
      s in ActiveSuites(RegisterAll([], SEED))
  {
    hide ActiveSuites, RegisterAll;
    RegistrationsKeepInvariant([], SEED);
    SeedMarks();
    SeedReport([], 5);
    ActiveSuitesExact(RegisterAll([], SEED), SEED[5]);
  }

  // ---- the order of the view, told without the sort key ----

  function Rank(s: Status): nat {
    match s
    case Classical => 0
    case HybridPq => 1
    case Pq => 2
    case Symmetric => 3
  }

  lemma ValueOrder(a: Status, b: Status)
    ensures LexLeq(a.Value(), b.Value()) <==> Rank(a) <= Rank(b)
    ensures a.Value() == b.Value() <==> a == b
  {
    assert Ascii("classical")[0] == 'c' as int && Ascii("hybrid-pq")[0] == 'h' as int
        && Ascii("pq")[0] == 'p' as int && Ascii("symmetric")[0] == 's' as int;
    LexTotal(a.Value(), b.Value());
  }

  /** a stands before b in Python's order of strings. */
  ghost predicate TextBefore(a: text, b: text) {
    a != b && (a <= b || exists i: nat :: DiffersAt(a, b, i))
  }

  /** Of two suites in the view the earlier one is active, or neither is; among suites that agree in that,
      classical comes before hybrid before pure before symmetric; among suites that agree in both, the ids
      ascend. */
  lemma ViewOrder(d: Dict, i: nat, j: nat)
    requires WellFormed(d) && i < j < |AllSuites(d)|
    ensures var a, b := AllSuites(d)[i], AllSuites(d)[j];
      && (b.active ==> a.active)
      && (a.active == b.active ==> Rank(a.status) <= Rank(b.status))
      && (a.active == b.active && a.status == b.status ==> TextBefore(a.suiteId, b.suiteId))
  {
    hide AllSuites, WellFormed, LexLeq, Status.Value, Rank;
    AllSuitesSortedPermutation(d);
    var a, b := AllSuites(d)[i], AllSuites(d)[j];
    assert SuiteLeq(a, b);
    ValueOrder(a.status, b.status);
    LexExact(a.suiteId, b.suiteId);
    EachIdOnce(d, i, j);
  }

  lemma EachIdOnce(d: Dict, i: nat, j: nat)
    requires WellFormed(d) && i < j < |AllSuites(d)|
    ensures AllSuites(d)[i].suiteId != AllSuites(d)[j].suiteId
  {
    hide AllSuites, WellFormed, Values, Lookup;
    AllSuitesSortedPermutation(d);
    var s := AllSuites(d);
    assert s[i] in s && s[j] in s;
    InView(d, s[i]);
    InView(d, s[j]);
    ValuesAreLookups(d, s[i]);
    ValuesAreLookups(d, s[j]);
    if s[i] == s[j] {
      TwiceCounts(s, i, j);
    }
  }

  lemma TwiceCounts<T>(s: seq<T>, i: nat, j: nat)
    requires i < j < |s| && s[i] == s[j]
    ensures multiset(s)[s[i]] >= 2
  {
    assert s == s[..i] + [s[i]] + s[i + 1..j] + [s[j]] + s[j + 1..];
  }

  // ---- "classical first" ----

  ghost predicate ClassicalFirst(s: seq<CryptoSuite>) {
    forall i, j :: 0 <= i < j < |s| && s[j].status.Classical? ==> s[i].status.Classical?
  }

  lemma ClassicalIsLeast(a: CryptoSuite, b: CryptoSuite)
    requires SuiteLeq(a, b) && a.active == b.active && b.status.Classical?
    ensures a.status.Classical?
  {
    assert Ascii("classical")[0] == 'c' as int && Ascii("hybrid-pq")[0] == 'h' as int
        && Ascii("pq")[0] == 'p' as int && Ascii("symmetric")[0] == 's' as int;
  }

  lemma InView(d: Dict, x: CryptoSuite)
    ensures x in AllSuites(d) <==> x in Values(d)
  {
    hide AllSuites, Values;
    AllSuitesSortedPermutation(d);
    assert x in multiset(AllSuites(d)) <==> x in multiset(Values(d));
  }

  /** Two suites that keep the view from being classical first. */
  ghost predicate Misplaced(d: Dict, a: CryptoSuite, c: CryptoSuite) {
    && a in Values(d) && a.active && !a.status.Classical?
    && c in Values(d) && !c.active && c.status.Classical?
  }

  lemma MisplacedPairBreaks(d: Dict, a: CryptoSuite, c: CryptoSuite)
    requires Misplaced(d, a, c)
    ensures !ClassicalFirst(AllSuites(d))
  {
    hide AllSuites, Status.Value, LexLeq, Values;
    AllSuitesSortedPermutation(d);
    var s := AllSuites(d);
    InView(d, a);
    InView(d, c);
    var i :| 0 <= i < |s| && s[i] == a;
    var j :| 0 <= j < |s| && s[j] == c;
    assert i < j;
  }

  lemma BreakHasMisplacedPair(d: Dict, i: nat, j: nat)
    requires i < j < |AllSuites(d)|
    requires AllSuites(d)[j].status.Classical? && !AllSuites(d)[i].status.Classical?
    ensures Misplaced(d, AllSuites(d)[i], AllSuites(d)[j])
  {
    hide AllSuites, Values;
    AllSuitesSortedPermutation(d);
    var s := AllSuites(d);
    InView(d, s[i]);
    InView(d, s[j]);
    assert SuiteLeq(s[i], s[j]);
    if s[i].active == s[j].active {
      ClassicalIsLeast(s[i], s[j]);
    }
  }

  /** The view promises "classical first". It keeps the promise exactly when no inactive classical suite
      is registered beside an active suite of another status. */
  lemma ClassicalFirstExact(d: Dict)
    ensures ClassicalFirst(AllSuites(d)) <==> forall a, c :: !Misplaced(d, a, c)
  {
    hide AllSuites, Misplaced;
    var s := AllSuites(d);
    if i, j :| 0 <= i < j < |s| && s[j].status.Classical? && !s[i].status.Classical? {
      BreakHasMisplacedPair(d, i, j);
    }
    if a, c :| Misplaced(d, a, c) {
      MisplacedPairBreaks(d, a, c);
    }
  }
}
