/**
 The accepted subnet table: prefixes with their exits, in an order that makes
 the first match of a linear scan a longest match (RFC 4632 section 5.1).
 */
module RouteTable {
  import opened Wrappers
  import opened Cidrs
  import opened HostInfos
  import opened RoutePolicy

  datatype Entry = Entry(cidr: Cidr, exit: PeerId)

  /** Longest prefix first, then by address, then by exit. */
  predicate Before(a: Entry, b: Entry) {
    || a.cidr.prefixLen > b.cidr.prefixLen
    || (a.cidr.prefixLen == b.cidr.prefixLen
        && (a.cidr.address < b.cidr.address || (a.cidr.address == b.cidr.address && a.exit < b.exit)))
  }

  function InsertSorted(e: Entry, table: seq<Entry>): (r: seq<Entry>)
    ensures forall x :: x in r <==> x == e || x in table
  {
    if table == [] || Before(e, table[0]) then [e] + table
    else [table[0]] + InsertSorted(e, table[1..])
  }

  function Sort(entries: seq<Entry>): (r: seq<Entry>)
    ensures forall x :: x in r <==> x in entries
  {
    if entries == [] then [] else InsertSorted(entries[0], Sort(entries[1..]))
  }

  /** Drop every entry equal to its predecessor. */
  function Dedup(entries: seq<Entry>): (r: seq<Entry>)
    ensures forall x :: x in r <==> x in entries
    ensures entries != [] ==> r != [] && r[0] == entries[0]
  {
    if |entries| <= 1 then entries
    else if entries[0] == entries[1] then
      assert entries == [entries[0]] + entries[1..];
      Dedup(entries[1..])
    else
      assert entries == [entries[0]] + entries[1..];
      [entries[0]] + Dedup(entries[1..])
  }

  function Canonical(entries: seq<Entry>): seq<Entry> {
    Dedup(Sort(entries))
  }

  ghost predicate Ordered(s: seq<Entry>) {
    forall i, j | 0 <= i < j < |s| :: !Before(s[j], s[i])
  }

  ghost predicate StrictlyOrdered(s: seq<Entry>) {
    forall i, j | 0 <= i < j < |s| :: Before(s[i], s[j])
  }

  lemma {:induction false} InsertSortedOrdered(e: Entry, table: seq<Entry>)
    requires Ordered(table)
    ensures Ordered(InsertSorted(e, table))
  {
    if table != [] && !Before(e, table[0]) {
      InsertSortedOrdered(e, table[1..]);
      var rest := InsertSorted(e, table[1..]);
      forall x | x in rest
        ensures !Before(x, table[0])
      {
        assert x == e || x in table[1..];
      }
    }
  }

  lemma {:induction false} SortOrdered(entries: seq<Entry>)
    ensures Ordered(Sort(entries))
  {
    if entries != [] {
      SortOrdered(entries[1..]);
      InsertSortedOrdered(entries[0], Sort(entries[1..]));
    }
  }

  lemma {:induction false} DedupStrict(s: seq<Entry>)
    requires Ordered(s)
    ensures StrictlyOrdered(Dedup(s))
  {
    if |s| > 1 {
      DedupStrict(s[1..]);
      if s[0] != s[1] {
        forall x | x in Dedup(s[1..])
          ensures Before(s[0], x)
        {
          var k :| 0 <= k < |s[1..]| && s[1..][k] == x;
          assert !Before(s[k + 1], s[0]) && !Before(s[k + 1], s[1]) && !Before(s[1], s[0]);
        }
      }
    }
  }

  lemma CanonicalStrict(entries: seq<Entry>)
    ensures StrictlyOrdered(Canonical(entries))
  {
    SortOrdered(entries);
    DedupStrict(Sort(entries));
  }

  ghost predicate SameElements<T(!new)>(s: seq<T>, t: seq<T>) {
    forall x :: x in s <==> x in t
  }

  lemma FirstIsLeast(s: seq<Entry>, e: Entry)
    requires StrictlyOrdered(s) && e in s
    ensures e == s[0] || Before(s[0], e)
  {
  }

  /** A strictly ordered table is determined by its entries. */
  lemma {:induction false} StrictlyOrderedUnique(s: seq<Entry>, t: seq<Entry>)
    requires StrictlyOrdered(s) && StrictlyOrdered(t) && SameElements(s, t)
    ensures s == t
  {
    assert t != [] ==> t[0] in t;
    if s != [] {
      assert s[0] in s && s[0] in t && t[0] in s;
      FirstIsLeast(s, t[0]);
      FirstIsLeast(t, s[0]);
      assert s[0] == t[0];
      forall x
        ensures x in s[1..] <==> x in t[1..]
      {
        assert x in s[1..] ==> Before(s[0], x);
        assert x in t[1..] ==> Before(t[0], x);
        assert s == [s[0]] + s[1..] && t == [t[0]] + t[1..];
        assert x in s <==> x in t;
      }
      StrictlyOrderedUnique(s[1..], t[1..]);
    }
  }

  /** Neither order nor repetition in the input shows in the table. */
  lemma CanonicalDependsOnElements(s: seq<Entry>, t: seq<Entry>)
    requires SameElements(s, t)
    ensures Canonical(s) == Canonical(t)
  {
    CanonicalStrict(s);
    CanonicalStrict(t);
    assert SameElements(Canonical(s), Canonical(t)) by {
      forall x
        ensures x in Canonical(s) <==> x in Canonical(t)
      {
        assert x in s <==> x in t;
      }
    }
    StrictlyOrderedUnique(Canonical(s), Canonical(t));
  }

  // ---- longest-prefix match -----------------------------------------------------------

  function FirstMatch(table: seq<Entry>, x: Addr): (r: Option<Entry>)
    ensures r.None? <==> forall e | e in table :: !ContainsAddr(e.cidr, x)
    ensures r.Some? ==> r.value in table && ContainsAddr(r.value.cidr, x)
  {
    if table == [] then None
    else if ContainsAddr(table[0].cidr, x) then Some(table[0])
    else FirstMatch(table[1..], x)
  }

  ghost predicate IsLongestMatch(entries: seq<Entry>, x: Addr, e: Entry) {
    && e in entries
    && ContainsAddr(e.cidr, x)
    && forall f | f in entries && ContainsAddr(f.cidr, x) :: f.cidr.prefixLen <= e.cidr.prefixLen
  }

  /** Every prefix is in network form and has one exit. */
  ghost predicate OneExitPerPrefix(entries: seq<Entry>) {
    && (forall e | e in entries :: InNetworkForm(e.cidr))
    && forall e, f | e in entries && f in entries && e.cidr == f.cidr :: e.exit == f.exit
  }

  /** The specification: look at every entry, in any order, and keep the longest that contains `x`. */
  function BruteForce(entries: seq<Entry>, x: Addr): Option<Entry> {
    if entries == [] then None
    else
      var rest := BruteForce(entries[1..], x);
      if !ContainsAddr(entries[0].cidr, x) then rest
      else if rest.Some? && rest.value.cidr.prefixLen >= entries[0].cidr.prefixLen then rest
      else Some(entries[0])
  }

  lemma {:induction false} FirstMatchOrdered(table: seq<Entry>, x: Addr)
    requires StrictlyOrdered(table) && FirstMatch(table, x).Some?
    ensures IsLongestMatch(table, x, FirstMatch(table, x).value)
  {
    if !ContainsAddr(table[0].cidr, x) {
      FirstMatchOrdered(table[1..], x);
    }
  }

  lemma {:induction false} BruteForceLongest(entries: seq<Entry>, x: Addr)
    ensures match BruteForce(entries, x)
            case None => forall e | e in entries :: !ContainsAddr(e.cidr, x)
            case Some(e) => IsLongestMatch(entries, x, e)
  {
    if entries != [] {
      BruteForceLongest(entries[1..], x);
      assert forall f | f in entries :: f == entries[0] || f in entries[1..];
    }
  }

  /** The scan of the sorted table finds an entry of maximal length among all the unsorted entries, or there is none. */
  lemma ScanIsLongestMatch(entries: seq<Entry>, x: Addr)
    ensures match FirstMatch(Canonical(entries), x)
            case None => forall e | e in entries :: !ContainsAddr(e.cidr, x)
            case Some(e) => IsLongestMatch(entries, x, e)
  {
    CanonicalStrict(entries);
    if FirstMatch(Canonical(entries), x).Some? {
      FirstMatchOrdered(Canonical(entries), x);
    }
  }

  lemma LongestMatchUnique(entries: seq<Entry>, x: Addr, e: Entry, f: Entry)
    requires OneExitPerPrefix(entries)
    requires IsLongestMatch(entries, x, e) && IsLongestMatch(entries, x, f)
    ensures e == f
  {
    SamePrefix(e.cidr, f.cidr, x);
  }

  /** With one exit per prefix, the scan equals the brute-force maximum. */
  lemma ScanIsBruteForce(entries: seq<Entry>, x: Addr)
    requires OneExitPerPrefix(entries)
    ensures FirstMatch(Canonical(entries), x) == BruteForce(entries, x)
  {
    ScanIsLongestMatch(entries, x);
    BruteForceLongest(entries, x);
    if FirstMatch(Canonical(entries), x).Some? {
      LongestMatchUnique(entries, x, FirstMatch(Canonical(entries), x).value, BruteForce(entries, x).value);
    }
  }

  // ---- the table the policy produces -----------------------------------------------------

  /** The accepted `(prefix, exit)` pairs, in decision order. */
  function Accepted(decisions: seq<Decision>): (r: seq<Entry>)
    ensures forall e :: e in r <==> Decision(e.cidr, e.exit, None) in decisions
  {
    if decisions == [] then []
    else
      assert decisions == [decisions[0]] + decisions[1..];
      if decisions[0].rejected.None? then [Entry(decisions[0].cidr, decisions[0].peerId)] + Accepted(decisions[1..])
      else Accepted(decisions[1..])
  }

  function AcceptedTable(policy: ConsumerPolicy, adverts: seq<Advert>): seq<Entry> {
    Canonical(Accepted(Decisions(policy, adverts)))
  }

  ghost predicate IsAccepted(policy: ConsumerPolicy, adverts: seq<Advert>, e: Entry) {
    && policy.acceptRoutes
    && PrefixRule(policy, e.cidr).None?
    && IsPrimary(adverts, e.cidr, e.exit)
  }

  lemma AcceptedMeaning(policy: ConsumerPolicy, adverts: seq<Advert>, e: Entry)
    ensures e in Accepted(Decisions(policy, adverts)) <==> IsAccepted(policy, adverts, e)
  {
    var d := Decision(e.cidr, e.exit, None);
    if IsAccepted(policy, adverts, e) {
      var a :| a in adverts && Network(a.cidr) == e.cidr && a.peerId == e.exit;
      var i :| 0 <= i < |adverts| && adverts[i] == a;
      assert Decisions(policy, adverts)[i] == d;
    }
    if d in Decisions(policy, adverts) {
      var i :| 0 <= i < |adverts| && Decisions(policy, adverts)[i] == d;
      assert DecisionFor(policy, adverts, adverts[i]) == d;
    }
  }

  lemma AcceptedOneExit(policy: ConsumerPolicy, adverts: seq<Advert>)
    ensures OneExitPerPrefix(Accepted(Decisions(policy, adverts)))
  {
    var entries := Accepted(Decisions(policy, adverts));
    forall e | e in entries
      ensures InNetworkForm(e.cidr) && IsPrimary(adverts, e.cidr, e.exit)
    {
      AcceptedMeaning(policy, adverts, e);
      var a :| a in adverts && Network(a.cidr) == e.cidr && a.peerId == e.exit;
      NetworkKeepsMembers(a.cidr, 0);
    }
  }

  lemma AdvertisersDependOnElements(s: seq<Advert>, t: seq<Advert>, cidr: Cidr)
    requires SameElements(s, t)
    ensures Advertisers(s, cidr) == Advertisers(t, cidr)
  {
  }

  /** Any permutation or repetition of the advertisements gives the identical table, with one exit per prefix. */
  lemma TableIsCanonical(policy: ConsumerPolicy, s: seq<Advert>, t: seq<Advert>)
    requires SameElements(s, t)
    ensures AcceptedTable(policy, s) == AcceptedTable(policy, t)
    ensures StrictlyOrdered(AcceptedTable(policy, s)) && OneExitPerPrefix(AcceptedTable(policy, s))
    ensures forall i, j | 0 <= i < j < |AcceptedTable(policy, s)| ::
              AcceptedTable(policy, s)[i].cidr != AcceptedTable(policy, s)[j].cidr
  {
    var accepted := Accepted(Decisions(policy, s));
    forall e: Entry
      ensures e in accepted <==> e in Accepted(Decisions(policy, t))
    {
      AcceptedMeaning(policy, s, e);
      AcceptedMeaning(policy, t, e);
      AdvertisersDependOnElements(s, t, e.cidr);
    }
    CanonicalDependsOnElements(accepted, Accepted(Decisions(policy, t)));
    AcceptedOneExit(policy, s);
    CanonicalStrict(accepted);
    var table := AcceptedTable(policy, s);
    assert forall e :: e in table <==> e in accepted;
    forall i, j | 0 <= i < j < |table|
      ensures table[i].cidr != table[j].cidr
    {
      assert table[i] in accepted && table[j] in accepted && Before(table[i], table[j]);
    }
  }

  /** The table answers every address as the brute-force maximum over the unsorted accepted set does. */
  lemma TableAnswersLikeBruteForce(policy: ConsumerPolicy, adverts: seq<Advert>, x: Addr)
    ensures FirstMatch(AcceptedTable(policy, adverts), x) == BruteForce(Accepted(Decisions(policy, adverts)), x)
  {
    AcceptedOneExit(policy, adverts);
    ScanIsBruteForce(Accepted(Decisions(policy, adverts)), x);
  }
}
