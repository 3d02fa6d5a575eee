/** Which thread waits for which, and cycles among them. */
module WaitGraph {

  /** The recorded waits. */
  type Waits = map<nat, nat>

  /** b is n waits away from a. */
  ghost predicate Leads(w: Waits, a: nat, b: nat, n: nat)
    decreases n
  {
    if n == 0 then a == b else a in w && Leads(w, w[a], b, n - 1)
  }

  ghost predicate Reach(w: Waits, a: nat, b: nat) {
    exists n: nat :: Leads(w, a, b, n)
  }

  ghost predicate Acyclic(w: Waits) {
    forall a: nat, n: nat :: n > 0 ==> !Leads(w, a, a, n)
  }

  lemma {:induction false} LeadsMore(w: Waits, a: nat, b: nat, c: nat, m: nat, n: nat)
    requires Leads(w, a, b, m) && Leads(w, b, c, n)
    ensures Leads(w, a, c, m + n)
    decreases m
  {
    if m > 0 {
      LeadsMore(w, w[a], b, c, m - 1, n);
    }
  }

  lemma ReachStep(w: Waits, a: nat, b: nat)
    requires a in w
    ensures Reach(w, a, b) <==> a == b || Reach(w, w[a], b)
  {
    if Reach(w, a, b) && a != b {
      var n: nat :| Leads(w, a, b, n);
      assert Leads(w, w[a], b, n - 1);
    }
    if Reach(w, w[a], b) {
      var n: nat :| Leads(w, w[a], b, n);
      assert Leads(w, a, b, n + 1);
    }
    assert a == b ==> Leads(w, a, b, 0);
  }

  lemma ReachEnd(w: Waits, a: nat, b: nat)
    requires a !in w
    ensures Reach(w, a, b) <==> a == b
  {
    assert Leads(w, a, a, 0);
  }

  /** Fewer waits lead nowhere new. */
  lemma {:induction false} LeadsSub(w: Waits, v: Waits, a: nat, b: nat, n: nat)
    requires Leads(w, a, b, n) && forall x :: x in w ==> x in v && v[x] == w[x]
    ensures Leads(v, a, b, n)
    decreases n
  {
    if n > 0 {
      LeadsSub(w, v, w[a], b, n - 1);
    }
  }

  lemma AcyclicSub(w: Waits, v: Waits)
    requires Acyclic(v) && forall x :: x in w ==> x in v && v[x] == w[x]
    ensures Acyclic(w)
  {
    forall a: nat, n: nat | n > 0 ensures !Leads(w, a, a, n) {
      if Leads(w, a, a, n) {
        LeadsSub(w, v, a, a, n);
      }
    }
  }

  ghost predicate Sooner(w: Waits, a: nat, b: nat, n: nat) {
    exists m: nat :: m < n && Leads(w, a, b, m)
  }

  /** A path in the graph with the wait t -> o either avoids t, or shows that o leads to t without
      that wait. */
  lemma {:induction false} LeadsNew(w: Waits, t: nat, o: nat, a: nat, b: nat, n: nat)
    requires Leads(w[t := o], a, b, n)
    ensures Leads(w - {t}, a, b, n) || Sooner(w - {t}, a, t, n)
    decreases n
  {
    var u := w - {t};
    if n > 0 {
      if a == t {
        var none: nat := 0;
        assert none < n && Leads(u, a, t, none);
      } else {
        LeadsNew(w, t, o, w[a], b, n - 1);
        if Leads(u, w[a], b, n - 1) {
          assert Leads(u, a, b, n);
        } else {
          var m: nat :| m < n - 1 && Leads(u, w[a], t, m);
          assert Leads(u, a, t, m + 1);
        }
      }
    }
  }

  /** Recording the wait t -> o closes a cycle exactly when o already leads to t. */
  lemma NewWait(w: Waits, t: nat, o: nat)
    requires Acyclic(w)
    ensures Acyclic(w[t := o]) <==> !Reach(w, o, t)
  {
    var v, u := w[t := o], w - {t};
    if Reach(w, o, t) {
      var n: nat :| Leads(w, o, t, n);
      AvoidsEnd(w, o, t, n);
      var m: nat :| Leads(u, o, t, m);
      LeadsSub(u, v, o, t, m);
      assert Leads(v, t, t, m + 1);
    } else {
      forall a: nat, n: nat | n > 0 ensures !Leads(v, a, a, n) {
        if Leads(v, a, a, n) {
          RoundTrip(w, t, o, a, n);
        }
      }
    }
  }

  /** The way to t need not go through t before. */
  lemma {:induction false} AvoidsEnd(w: Waits, a: nat, t: nat, n: nat)
    requires Leads(w, a, t, n)
    ensures exists m: nat :: Leads(w - {t}, a, t, m)
    decreases n
  {
    if a == t {
      assert Leads(w - {t}, a, t, 0);
    } else {
      AvoidsEnd(w, w[a], t, n - 1);
      var m: nat :| Leads(w - {t}, w[a], t, m);
      assert Leads(w - {t}, a, t, m + 1);
    }
  }

  /** A cycle in the graph with the wait t -> o goes through it. */
  lemma RoundTrip(w: Waits, t: nat, o: nat, a: nat, n: nat)
    requires Acyclic(w) && n > 0 && Leads(w[t := o], a, a, n)
    ensures Reach(w, o, t)
  {
    var v, u := w[t := o], w - {t};
    LeadsNew(w, t, o, a, a, n);
    if Leads(u, a, a, n) {
      LeadsSub(u, w, a, a, n);
      assert false;
    }
    var m: nat :| m < n && Leads(u, a, t, m);
    LeadsSub(u, v, a, t, m);
    Suffix(v, a, t, a, m, n);
    LeadsMore(v, t, a, t, n - m, m);
    assert Leads(v, o, t, n - 1);
    LeadsNew(w, t, o, o, t, n - 1);
    var k: nat :| Leads(u, o, t, k);
    LeadsSub(u, w, o, t, k);
  }

  lemma {:induction false} Suffix(w: Waits, a: nat, b: nat, c: nat, m: nat, n: nat)
    requires Leads(w, a, b, m) && Leads(w, a, c, n) && m <= n
    ensures Leads(w, b, c, n - m)
    decreases m
  {
    if m > 0 {
      Suffix(w, w[a], b, c, m - 1, n - 1);
    }
  }

  /** The waits without those on the way from a to b. */
  function Clear(w: Waits, a: nat, b: nat): (v: Waits)
    ensures forall x :: x in v ==> x in w && v[x] == w[x]
    decreases |w|
  {
    if a == b || a !in w then w else
      assert |w - {a}| < |w| by { assert (w - {a}).Keys == w.Keys - {a}; assert |w.Keys - {a}| < |w.Keys|; }
      Clear(w - {a}, w[a], b)
  }

  /** a leads to x, and x to b in one or more steps. */
  ghost predicate OnWay(w: Waits, a: nat, b: nat, x: nat) {
    Reach(w, a, x) && exists n: nat :: n > 0 && Leads(w, x, b, n)
  }

  /** What a leads to, it leads to without the waits of one that it does not lead to. */
  lemma {:induction false} LeadsWithout(w: Waits, c: nat, a: nat, b: nat, n: nat)
    requires Leads(w, a, b, n) && !Reach(w, a, c)
    ensures Leads(w - {c}, a, b, n)
    decreases n
  {
    assert Leads(w, a, a, 0);
    if n > 0 {
      ReachStep(w, a, c);
      LeadsWithout(w, c, w[a], b, n - 1);
    }
  }

  lemma ReachFrom(w: Waits, a: nat, b: nat, c: nat, n: nat)
    requires Leads(w, a, b, n) && Reach(w, b, c)
    ensures Reach(w, a, c)
  {
    var m: nat :| Leads(w, b, c, m);
    LeadsMore(w, a, b, c, n, m);
  }

  /** On the way from a are a itself and those on the way from there on. */
  lemma WayStep(w: Waits, a: nat, b: nat, x: nat)
    requires Acyclic(w) && a in w && a != b && Reach(w, a, b)
    ensures OnWay(w, a, b, x) <==> x == a || OnWay(w - {a}, w[a], b, x)
  {
    var u, s := w - {a}, w[a];
    if Reach(w, s, a) {
      var n: nat :| Leads(w, s, a, n);
      assert Leads(w, a, a, n + 1);
    }
    if OnWay(w, a, b, x) && x != a {
      ReachStep(w, a, x);
      var k: nat :| Leads(w, s, x, k);
      var n: nat :| n > 0 && Leads(w, x, b, n);
      LeadsWithout(w, a, s, x, k);
      if Reach(w, x, a) {
        ReachFrom(w, s, x, a, k);
      }
      LeadsWithout(w, a, x, b, n);
    }
    if OnWay(u, s, b, x) {
      var k: nat :| Leads(u, s, x, k);
      var n: nat :| n > 0 && Leads(u, x, b, n);
      LeadsSub(u, w, s, x, k);
      LeadsSub(u, w, x, b, n);
      assert Leads(w, a, x, k + 1);
    }
    if x == a {
      var n: nat :| Leads(w, a, b, n);
      assert n > 0 && Leads(w, a, a, 0);
    }
  }

  /** Exactly the waits on the way from a to b are cleared, and none of them is left. */
  lemma {:induction false} ClearedIff(w: Waits, a: nat, b: nat, x: nat)
    requires Acyclic(w) && Reach(w, a, b)
    ensures x in w && x !in Clear(w, a, b) <==> OnWay(w, a, b, x)
    decreases |w|
  {
    if a == b {
      if OnWay(w, a, b, x) {
        var k: nat :| Leads(w, a, x, k);
        var n: nat :| n > 0 && Leads(w, x, b, n);
        LeadsMore(w, a, x, b, k, n);
        assert false;
      }
    } else {
      ReachStep(w, a, b);
      if a !in w {
        ReachEnd(w, a, b);
      }
      var s, u := w[a], w - {a};
      assert u.Keys == w.Keys - {a} && |u.Keys| < |w.Keys|;
      AcyclicSub(u, w);
      WayStep(w, a, b, x);
      assert Reach(u, s, b) by {
        WayAhead(w, a, b);
      }
      ClearedIff(u, s, b, x);
    }
  }

  /** The way goes on without the wait that has been followed. */
  lemma WayAhead(w: Waits, a: nat, b: nat)
    requires Acyclic(w) && a in w && a != b && Reach(w, a, b)
    ensures Reach(w - {a}, w[a], b)
  {
    ReachStep(w, a, b);
    var n: nat :| Leads(w, w[a], b, n);
    if Reach(w, w[a], a) {
      var m: nat :| Leads(w, w[a], a, m);
      assert Leads(w, a, a, m + 1);
    }
    LeadsWithout(w, a, w[a], b, n);
  }

  /** The waits on the way have become links, and all other waits and links are as before. */
  ghost predicate WayCleared(links: map<nat, nat>, links': map<nat, nat>, w: Waits, w': Waits, a: nat, b: nat) {
    forall x: nat {:trigger OnWay(w, a, b, x)} {:trigger x in w'} {:trigger x in links'} ::
      if OnWay(w, a, b, x) then x in w && x !in w' && x in links' && links'[x] == w[x]
      else
        && (x in w' <==> x in w) && (x in w ==> w'[x] == w[x])
        && (x in links' <==> x in links) && (x in links ==> links'[x] == links[x])
  }

  /** The links lead the way that the waits did. */
  lemma {:induction false} LinksLead(links: map<nat, nat>, links': map<nat, nat>, w: Waits, w': Waits, a: nat, b: nat,
      s: nat, n: nat)
    requires WayCleared(links, links', w, w', a, b) && Reach(w, a, s) && Leads(w, s, b, n)
    ensures Leads(links', s, b, n)
    decreases n
  {
    if n > 0 {
      assert OnWay(w, a, b, s);
      var k: nat :| Leads(w, a, s, k);
      var one: nat := 1;
      assert Leads(w, s, w[s], one);
      LeadsMore(w, a, s, w[s], k, one);
      LinksLead(links, links', w, w', a, b, w[s], n - 1);
    }
  }
}
