// Small facts about finite sets that several modules share.
module Collections {
  ghost function Pick<T>(s: set<T>): (x: T)
    requires s != {}
    ensures x in s
  {
    var x :| x in s; x
  }

  lemma {:induction false} SubsetOfSameSize<T>(small: set<T>, big: set<T>)
    requires small <= big && |small| == |big|
    ensures small == big
  {
    if small != {} {
      var x := Pick(small);
      SubsetOfSameSize(small - {x}, big - {x});
    }
  }

  lemma {:induction false} SubsetSize<T>(small: set<T>, big: set<T>)
    requires small <= big
    ensures |small| <= |big|
    ensures small != big ==> |small| < |big|
  {
    if small != {} {
      var x := Pick(small);
      SubsetSize(small - {x}, big - {x});
    } else if big != {} {
      var x := Pick(big);
      assert |big - {x}| + 1 == |big|;
    }
  }
}
