// The `max` helper of main.go: the largest value of a non-empty slice.
module Maximum {

  /** Index of the value `max` ends with: a left-to-right scan that moves
      only on a strictly larger element, so the first maximum wins. */
  function ArgMaxOf(s: seq<real>): (k: nat)
    requires |s| > 0
    ensures k < |s|
    ensures forall i :: 0 <= i < |s| ==> s[i] <= s[k]
    ensures forall i :: 0 <= i < k ==> s[i] < s[k]
  {
    if |s| == 1 then 0
    else
      var k := ArgMaxOf(s[..|s| - 1]);
      if s[|s| - 1] > s[k] then |s| - 1 else k
  }

  /** The value `max` returns. */
  function MaxOf(s: seq<real>): real
    requires |s| > 0
  {
    s[ArgMaxOf(s)]
  }

  /** `MaxOf` is an upper bound that occurs in the sequence. */
  lemma MaxOfIsMaximum(s: seq<real>)
    requires |s| > 0
    ensures MaxOf(s) in s
    ensures forall i :: 0 <= i < |s| ==> s[i] <= MaxOf(s)
  {
  }

  /** Upper bound and membership determine the maximum: any value with
      both properties is `MaxOf`. */
  lemma MaxOfUnique(s: seq<real>, m: real)
    requires |s| > 0
    requires m in s && forall i :: 0 <= i < |s| ==> s[i] <= m
    ensures m == MaxOf(s)
  {
    var i :| 0 <= i < |s| && s[i] == m;
    assert s[i] <= MaxOf(s);
  }

  /** A single element is its own maximum. */
  lemma MaxOfSingleton(x: real)
    ensures MaxOf([x]) == x
  {
  }

  /** max: starts from the first element and keeps any strictly larger one. */
  method Max(inArray: seq<real>) returns (maxVal: real)
    requires |inArray| > 0
    ensures maxVal in inArray
    ensures forall i :: 0 <= i < |inArray| ==> inArray[i] <= maxVal
    ensures maxVal == MaxOf(inArray)
  {
    maxVal := inArray[0];
    ghost var k: nat := 0;
    for i := 1 to |inArray|
      invariant k < i && maxVal == inArray[k]
      invariant k == ArgMaxOf(inArray[..i])
    {
      assert inArray[..i + 1][..i] == inArray[..i];
      if inArray[i] > maxVal {
        maxVal := inArray[i];
        k := i;
      }
    }
    assert inArray[..|inArray|] == inArray;
  }
}
