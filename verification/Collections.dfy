/** Small facts about finite sets used by the other modules. */
module Collections {
  lemma Pick<T>(s: set<T>) returns (x: T)
    requires s != {}
    ensures x in s
  {
    x :| x in s;
  }

  lemma {:induction false} HasMax(s: set<int>)
    requires s != {}
    ensures exists k :: k in s && forall j :: j in s ==> j <= k
  {
    var x := Pick(s);
    if s == {x} {
      assert forall j :: j in s ==> j <= x;
    } else {
      HasMax(s - {x});
      var k :| k in s - {x} && forall j :: j in s - {x} ==> j <= k;
      var m := if x > k then x else k;
      assert forall j :: j in s ==> j in s - {x} || j == x;
      assert forall j :: j in s ==> j <= m;
    }
  }

  function MaxOf(s: set<int>): (m: int)
    requires s != {}
    ensures m in s && forall j :: j in s ==> j <= m
  {
    HasMax(s);
    var m :| m in s && forall j :: j in s ==> j <= m;
    m
  }
}
