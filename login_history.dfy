/**
 The login history kept on each user: newest event first, at most eight
 events, the oldest evicted when a ninth arrives.
 */
module LoginHistory {

  /** One successful login: when it happened and the client's user agent. */
  datatype LoginEvent = LoginEvent(dateTime: string, userAgent: string)

  /** The number of events a history keeps. */
  const Capacity: nat := 8

  /**
   The history after one more successful login: when the history already holds
   `Capacity` or more events its last (oldest) one is dropped, then `e` goes in
   front.
   */
  function RecordLogin(history: seq<LoginEvent>, e: LoginEvent): (r: seq<LoginEvent>)
    ensures |r| == if |history| >= Capacity then |history| else |history| + 1
    ensures r[0] == e
    ensures r[1..] <= history
    ensures |history| < Capacity ==> r[1..] == history
    ensures |history| <= Capacity ==> |r| <= Capacity
  {
    var kept := if |history| >= Capacity then history[..|history| - 1] else history;
    [e] + kept
  }

  /** The first `n` elements of `s`, or all of `s` when it is shorter. */
  function Take<T>(s: seq<T>, n: nat): (r: seq<T>)
    ensures |r| == if |s| <= n then |s| else n
    ensures r <= s
  {
    if |s| <= n then s else s[..n]
  }

  /** `s` in reverse order. */
  function Reversed<T>(s: seq<T>): (r: seq<T>)
    ensures |r| == |s|
    ensures forall i :: 0 <= i < |s| ==> r[i] == s[|s| - 1 - i]
  {
    if s == [] then [] else Reversed(s[1..]) + [s[0]]
  }

  /** The history after the logins `events`, in the order they happened. */
  function RecordLogins(history: seq<LoginEvent>, events: seq<LoginEvent>): seq<LoginEvent>
    decreases |events|
  {
    if events == [] then history
    else RecordLogin(RecordLogins(history, events[..|events| - 1]), events[|events| - 1])
  }

  /** One login on top of a capped history is the capped history of one more event. */
  lemma RecordLoginTake(s: seq<LoginEvent>, e: LoginEvent)
    ensures RecordLogin(Take(s, Capacity), e) == Take([e] + s, Capacity)
  {
    if |s| >= Capacity {
      assert Take(s, Capacity)[..Capacity - 1] == s[..Capacity - 1];
      assert ([e] + s)[..Capacity] == [e] + s[..Capacity - 1];
    }
  }

  /**
   From a history within the cap, any run of logins leaves the newest
   `Capacity` events of (the new events newest first, then the old history):
   the cap holds, the newest event is in front, and exactly the oldest ones
   are evicted.
   */
  lemma {:induction false} RecordLoginsKeepsNewest(history: seq<LoginEvent>, events: seq<LoginEvent>)
    requires |history| <= Capacity
    ensures RecordLogins(history, events) == Take(Reversed(events) + history, Capacity)
    decreases |events|
  {
    if events == [] {
      assert Reversed(events) + history == history;
    } else {
      var n := |events|;
      var front, e := events[..n - 1], events[n - 1];
      RecordLoginsKeepsNewest(history, front);
      RecordLoginTake(Reversed(front) + history, e);
      assert Reversed(events) == [e] + Reversed(front) by {
        assert events == front + [e];
        ReversedSnoc(front, e);
      }
      assert [e] + (Reversed(front) + history) == Reversed(events) + history;
    }
  }

  lemma ReversedSnoc<T>(s: seq<T>, x: T)
    ensures Reversed(s + [x]) == [x] + Reversed(s)
  {
    var r := Reversed(s + [x]);
    assert forall i :: 0 <= i < |r| ==> r[i] == ([x] + Reversed(s))[i];
  }

  /**
   Ten logins into an empty history leave eight events, newest first; the two
   oldest are gone.
   */
  lemma TenLoginsKeepNewestEight(events: seq<LoginEvent>)
    requires |events| == 10
    ensures |RecordLogins([], events)| == Capacity
    ensures forall i :: 0 <= i < Capacity ==> RecordLogins([], events)[i] == events[9 - i]
  {
    RecordLoginsKeepsNewest([], events);
    assert Reversed(events) + [] == Reversed(events);
  }
}
