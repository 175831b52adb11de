/**
 * Assignment convergence and the report of connections carrying Visitor credit.
 *
 * `Tracker` is the tracker's state as a value; its functions say what each locked operation does
 * to it. `AssignmentConvergenceTracker` is the shared object the workers and the controller update.
 */
module Convergence {
  import opened Prelude
  import opened Addresses
  import Sorting

  type Address = a: ServerAddress | Renderable(a) witness ServerAddress("a", DEFAULT_PORT)

  datatype Status = Unconverged | PartiallyConverged | Converged

  function FromCounts(assignment: nat, connected: nat): Status {
    if assignment == 0 then Converged
    else if connected == 0 then Unconverged
    else if connected >= assignment then Converged
    else PartiallyConverged
  }

  /** One connection carrying credit. */
  datatype Entry = Entry(token: nat, generation: Generation)

  datatype Tracker = Tracker(
    assignment: set<Address>,
    connected: set<Address>,
    carrying: map<Address, seq<Entry>>,
    nextConnection: nat)

  const EMPTY := Tracker({}, {}, map[], 0)

  function Current(t: Tracker): Status {
    FromCounts(|t.assignment|, |t.connected * t.assignment|)
  }

  function Changed(before: Tracker, after: Tracker): Option<Status> {
    if Current(after) != Current(before) then Some(Current(after)) else None
  }

  function SetAssigned(t: Tracker, addresses: seq<Address>): Tracker {
    t.(assignment := set a | a in addresses)
  }

  function MarkConnected(t: Tracker, a: Address): Tracker {
    t.(connected := t.connected + {a})
  }

  function MarkDisconnected(t: Tracker, a: Address): Tracker {
    t.(connected := t.connected - {a})
  }

  /** The connections of `a` carrying credit, oldest first. */
  function Entries(t: Tracker, a: Address): seq<Entry> {
    if a in t.carrying then t.carrying[a] else []
  }

  function SetEntries(t: Tracker, a: Address, entries: seq<Entry>): (t': Tracker)
    ensures Entries(t', a) == entries
    ensures forall b: Address :: b != a ==> Entries(t', b) == Entries(t, b)
  {
    t.(carrying := if entries == [] then t.carrying - {a} else t.carrying[a := entries])
  }

  /** Record a connection under the next token; tokens are unsigned 64-bit and wrap. */
  function AddCredit(t: Tracker, a: Address, generation: Generation): Tracker {
    SetEntries(t, a, Entries(t, a) + [Entry(t.nextConnection, generation)])
      .(nextConnection := (t.nextConnection + 1) % U64_LIMIT)
  }

  function Without(entries: seq<Entry>, token: nat): seq<Entry> {
    if entries == [] then []
    else (if entries[0].token == token then [] else [entries[0]]) + Without(entries[1..], token)
  }

  /** Drop the guard holding `token`. */
  function DropCredit(t: Tracker, a: Address, token: nat): Tracker {
    SetEntries(t, a, Without(Entries(t, a), token))
  }

  // ---------------------------------------------------------------------------------------------
  // Convergence
  // ---------------------------------------------------------------------------------------------

  /** What the status means for the address sets, without counting. */
  ghost predicate Means(status: Status, assignment: set<Address>, connected: set<Address>) {
    match status
    case Converged => assignment <= connected
    case Unconverged => assignment != {} && assignment !! connected
    case PartiallyConverged => !(assignment <= connected) && !(assignment !! connected)
  }

  lemma SubsetBySize(a: set<Address>, b: set<Address>)
    requires a <= b && |a| >= |b|
    ensures a == b
  {
    var rest := b - a;
    assert b == a + rest;
    assert |b| == |a| + |rest|;
  }

  lemma SizeOfSubset(a: set<Address>, b: set<Address>)
    requires a <= b
    ensures |a| <= |b|
  {
    assert b == a + (b - a);
  }

  /** The status computed from counts is the one the address sets call for, and no other. */
  lemma StatusMeansSets(t: Tracker, status: Status)
    ensures Current(t) == status <==> Means(status, t.assignment, t.connected)
  {
    var both := t.connected * t.assignment;
    SizeOfSubset(both, t.assignment);
    if |both| >= |t.assignment| {
      SubsetBySize(both, t.assignment);
    } else {
      assert both != t.assignment;
      assert !(t.assignment <= t.connected);
    }
    if both != {} {
      var a :| a in both;
      assert a in t.assignment && a in t.connected;
    } else {
      assert forall a :: a in t.assignment && a in t.connected ==> a in both;
    }
  }

  datatype Call =
    | Assign(addresses: seq<Address>)
    | Connect(address: Address)
    | Disconnect(address: Address)
    | Credit(address: Address, generation: Generation)
    | Uncredit(address: Address, token: nat)

  function Apply(t: Tracker, call: Call): Tracker {
    match call
    case Assign(addresses) => SetAssigned(t, addresses)
    case Connect(a) => MarkConnected(t, a)
    case Disconnect(a) => MarkDisconnected(t, a)
    case Credit(a, generation) => AddCredit(t, a, generation)
    case Uncredit(a, token) => DropCredit(t, a, token)
  }

  /** The status changes a call returns to its caller; credit calls return none. */
  function Announces(t: Tracker, call: Call): Option<Status> {
    match call
    case Assign(_) => Changed(t, Apply(t, call))
    case Connect(_) => Changed(t, Apply(t, call))
    case Disconnect(a) => if a in t.connected then Changed(t, Apply(t, call)) else None
    case Credit(_, _) => None
    case Uncredit(_, _) => None
  }

  function After(t: Tracker, calls: seq<Call>): Tracker
    decreases calls
  {
    if calls == [] then t else After(Apply(t, calls[0]), calls[1..])
  }

  /** What an observer believes who starts from `belief` and hears only the returned changes. */
  function Heard(belief: Status, t: Tracker, calls: seq<Call>): Status
    decreases calls
  {
    if calls == [] then belief
    else
      var news := Announces(t, calls[0]);
      Heard(if news.Some? then news.value else belief, Apply(t, calls[0]), calls[1..])
  }

  /** For any call sequence, the changes returned so far always tell the current status. */
  lemma {:induction false} ChangesTellTheStatus(t: Tracker, calls: seq<Call>)
    ensures Heard(Current(t), t, calls) == Current(After(t, calls))
    decreases calls
  {
    if calls != [] {
      var t' := Apply(t, calls[0]);
      if calls[0].Disconnect? && calls[0].address !in t.connected {
        assert t.connected - {calls[0].address} == t.connected;
      }
      ChangesTellTheStatus(t', calls[1..]);
    }
  }

  /** A call that is not about credit announces exactly a change of the status, and then the new one. */
  lemma AnnouncesExactly(t: Tracker, call: Call, status: Status)
    ensures Announces(t, call) == Some(status)
       <==> !call.Credit? && !call.Uncredit? && Current(Apply(t, call)) == status && Current(t) != status
  {
    if call.Disconnect? && call.address !in t.connected {
      assert t.connected - {call.address} == t.connected;
    }
  }

  /** The observer's first belief, before any call, is Converged. */
  lemma StartsConverged(calls: seq<Call>)
    ensures Heard(Converged, EMPTY, calls) == Current(After(EMPTY, calls))
  {
    ChangesTellTheStatus(EMPTY, calls);
  }

  // ---------------------------------------------------------------------------------------------
  // Credit entries
  // ---------------------------------------------------------------------------------------------

  lemma {:induction false} WithoutAbsent(entries: seq<Entry>, token: nat)
    requires forall i :: 0 <= i < |entries| ==> entries[i].token != token
    ensures Without(entries, token) == entries
  {
    if entries != [] { WithoutAbsent(entries[1..], token); }
  }

  /** Position `k` is the only entry with its token. */
  ghost predicate Unshared(entries: seq<Entry>, k: nat)
    requires k < |entries|
  {
    forall i :: 0 <= i < |entries| && i != k ==> entries[i].token != entries[k].token
  }

  lemma {:induction false} DropUnshared(entries: seq<Entry>, k: nat)
    requires k < |entries| && Unshared(entries, k)
    ensures Without(entries, entries[k].token) == entries[..k] + entries[k + 1..]
  {
    var tail := entries[1..];
    if k == 0 {
      WithoutAbsent(tail, entries[0].token);
    } else {
      assert tail[k - 1] == entries[k];
      DropUnshared(tail, k - 1);
      assert entries[..k] == [entries[0]] + tail[..k - 1];
      assert entries[k + 1..] == tail[k..];
    }
  }

  /**
   * Dropping the guard at position `k` removes that entry and no other exactly when no other
   * entry of the same address carries its token.
   */
  lemma DropRemovesOnlyItsOwn(entries: seq<Entry>, k: nat)
    requires k < |entries|
    ensures Without(entries, entries[k].token) == entries[..k] + entries[k + 1..] <==> Unshared(entries, k)
  {
    hide Without;
    if Unshared(entries, k) {
      DropUnshared(entries, k);
    } else {
      var i :| 0 <= i < |entries| && i != k && entries[i].token == entries[k].token;
      SharedTokenStays(entries, k, i);
    }
  }

  lemma SharedTokenStays(entries: seq<Entry>, k: nat, i: nat)
    requires k < |entries| && i < |entries| && i != k && entries[i].token == entries[k].token
    ensures Without(entries, entries[k].token) != entries[..k] + entries[k + 1..]
  {
    hide Without;
    WithoutHoldsNone(entries, entries[k].token);
    var at := StillThere(entries, k, i);
  }

  /** Cutting out position `k` keeps what stood at any other position. */
  lemma StillThere(entries: seq<Entry>, k: nat, i: nat) returns (at: nat)
    requires k < |entries| && i < |entries| && i != k
    ensures at < |entries[..k] + entries[k + 1..]| && (entries[..k] + entries[k + 1..])[at] == entries[i]
  {
    at := if i < k then i else i - 1;
  }

  lemma {:induction false} WithoutHoldsNone(entries: seq<Entry>, token: nat)
    ensures forall i :: 0 <= i < |Without(entries, token)| ==> Without(entries, token)[i].token != token
  {
    if entries != [] { WithoutHoldsNone(entries[1..], token); }
  }

  // ---------------------------------------------------------------------------------------------
  // The report
  // ---------------------------------------------------------------------------------------------

  function Generations(entries: seq<Entry>): seq<Generation> {
    seq(|entries|, i requires 0 <= i < |entries| => entries[i].generation)
  }

  lemma KeysAreDistinct(addresses: set<Address>)
    ensures forall a, b :: a in addresses && b in addresses && Render(a) == Render(b) ==> a == b
  {
    forall a, b | a in addresses && b in addresses && Render(a) == Render(b) ensures a == b {
      RenderIsInjective(a, b);
    }
  }

  function Reported(t: Tracker): map<string, seq<Generation>> {
    KeysAreDistinct(t.assignment);
    map a | a in t.assignment :: Render(a) := Sorting.Sort(Generations(Entries(t, a)))
  }

  /** An assigned address lists its generations in the one order that is sorted. */
  lemma ReportedListing(t: Tracker, a: Address, listing: seq<Generation>)
    requires a in t.assignment
    ensures Render(a) in Reported(t)
    ensures listing == Reported(t)[Render(a)]
       <==> Sorting.Sorted(listing) && multiset(listing) == multiset(Generations(Entries(t, a)))
  {
    KeysAreDistinct(t.assignment);
    if Sorting.Sorted(listing) && multiset(listing) == multiset(Generations(Entries(t, a))) {
      Sorting.SortedListingIsUnique(listing, Reported(t)[Render(a)]);
    }
  }

  /** The report has exactly one key per assignment address and nothing for any other address. */
  lemma OneKeyPerAssigned(t: Tracker)
    ensures |Reported(t)| == |t.assignment|
    ensures forall a: Address :: Render(a) in Reported(t) <==> a in t.assignment
  {
    KeysAreDistinct(t.assignment);
    RenderedCount(t.assignment, Reported(t).Keys);
    forall a: Address ensures Render(a) in Reported(t) <==> a in t.assignment {
      if Render(a) in Reported(t) {
        var b :| b in t.assignment && Render(b) == Render(a);
        RenderIsInjective(a, b);
      }
    }
  }

  lemma {:induction false} RenderedCount(addresses: set<Address>, keys: set<string>)
    requires keys == set a | a in addresses :: Render(a)
    ensures |keys| == |addresses|
  {
    if addresses != {} {
      var a :| a in addresses;
      var rest := addresses - {a};
      var others := set b | b in rest :: Render(b);
      forall b | b in rest ensures Render(b) != Render(a) { RenderIsInjective(a, b); }
      assert keys == others + {Render(a)};
      RenderedCount(rest, others);
    }
  }

  // ---------------------------------------------------------------------------------------------
  // The shared object
  // ---------------------------------------------------------------------------------------------

  class AssignmentConvergenceTracker {
    var assignment: set<Address>
    var connected: set<Address>
    var carrying: map<Address, seq<Entry>>
    var nextConnection: nat

    function State(): Tracker
      reads this
    {
      Tracker(assignment, connected, carrying, nextConnection)
    }

    constructor ()
      ensures State() == EMPTY
    {
      assignment, connected, carrying, nextConnection := {}, {}, map[], 0;
    }

    method ReplaceAssigned(addresses: seq<Address>) returns (change: Option<Status>)
      modifies this
      ensures State() == SetAssigned(old(State()), addresses)
      ensures change == Announces(old(State()), Assign(addresses))
    {
      var previous := Current(State());
      assignment := set a | a in addresses;
      var next := Current(State());
      change := if next != previous then Some(next) else None;
    }

    method ObserveConnected(a: Address) returns (change: Option<Status>)
      modifies this
      ensures State() == MarkConnected(old(State()), a)
      ensures change == Announces(old(State()), Connect(a))
    {
      var previous := Current(State());
      connected := connected + {a};
      var next := Current(State());
      change := if next != previous then Some(next) else None;
    }

    method ObserveDisconnected(a: Address) returns (change: Option<Status>)
      modifies this
      ensures State() == MarkDisconnected(old(State()), a)
      ensures change == Announces(old(State()), Disconnect(a))
    {
      var previous := Current(State());
      if a !in connected {
        assert connected - {a} == connected;
        return None;
      }
      connected := connected - {a};
      var next := Current(State());
      change := if next != previous then Some(next) else None;
    }

    /** Record a connection; the token identifies it until `Release`. */
    method CarryingCredit(a: Address, generation: Generation) returns (token: nat)
      modifies this
      ensures State() == AddCredit(old(State()), a, generation)
      ensures token == old(nextConnection)
    {
      token := nextConnection;
      nextConnection := (token + 1) % U64_LIMIT;
      if a !in carrying {
        carrying := carrying[a := []];
      }
      carrying := carrying[a := carrying[a] + [Entry(token, generation)]];
    }

    /** Drop the guard holding `token`: a single pass that retains every other entry. */
    method Release(a: Address, token: nat)
      modifies this
      ensures State() == DropCredit(old(State()), a, token)
    {
      if a !in carrying {
        assert carrying - {a} == carrying;
        return;
      }
      var connections := carrying[a];
      var kept, i := [], 0;
      while i < |connections|
        invariant 0 <= i <= |connections|
        invariant kept + Without(connections[i..], token) == Without(connections, token)
      {
        if connections[i].token != token {
          kept := kept + [connections[i]];
        }
        assert connections[i..][1..] == connections[i + 1..];
        i := i + 1;
      }
      assert connections[i..] == [];
      assert kept == Without(connections, token);
      carrying := carrying[a := kept];
      if kept == [] {
        carrying := carrying - {a};
        assert carrying == old(carrying) - {a};
      }
    }
  }
}
