/** Listing a finite set of numbers in ascending order, as an ordered map iterates. */
module OrderedSets {
  import opened Common

  predicate IsLeast(m: U64, s: set<U64>) {
    m in s && forall x :: x in s ==> m <= x
  }

  lemma {:induction false} LeastExists(s: set<U64>) returns (least: U64)
    requires s != {}
    ensures IsLeast(least, s)
    decreases |s|
  {
    least :| least in s;
    var rest := s - {least};
    assert s == rest + {least};
    if rest != {} {
      var m := LeastExists(rest);
      if m < least { least := m; }
    }
  }

  function Least(s: set<U64>): (m: U64)
    requires s != {}
    ensures IsLeast(m, s)
  {
    assert exists m :: IsLeast(m, s) by {
      var m := LeastExists(s);
    }
    var m :| IsLeast(m, s);
    m
  }

  predicate StrictlyAscending(revs: seq<U64>) {
    forall i, j :: 0 <= i < j < |revs| ==> revs[i] < revs[j]
  }

  function Ascending(s: set<U64>): (revs: seq<U64>)
    ensures StrictlyAscending(revs)
    ensures forall x :: x in revs <==> x in s
  {
    if s == {} then [] else
      var m := Least(s);
      [m] + Ascending(s - {m})
  }

  lemma LeastIs(s: set<U64>, m: U64)
    requires IsLeast(m, s)
    ensures Least(s) == m
  {
    assert Least(s) in s && m in s;
  }

  /** A number above every member is listed last. */
  lemma {:induction false} AscendingSnoc(s: set<U64>, r: U64)
    requires forall x :: x in s ==> x < r
    ensures Ascending(s + {r}) == Ascending(s) + [r]
  {
    var t := s + {r};
    if s == {} {
      LeastIs(t, r);
      assert t - {r} == {};
    } else {
      var m := Least(s);
      LeastIs(t, m);
      var rest := s - {m};
      assert t - {m} == rest + {r};
      AscendingSnoc(rest, r);
      assert Ascending(t) == [m] + (Ascending(rest) + [r]);
    }
  }
}
