/** The locator of a change on a profile-driven provider: built in summaryFromDetail of
    internal/changehost/openapi_execute.go, taken apart by openAPIDisplayNumber of internal/changehost/openapi_provider.go. */
module ChangeLocators {
  import Texts
  import opened Wrappers

  const PREFIX := "obj-"
  const INFIX := "-num-"

  predicate HasPrefix(s: string, prefix: string) {
    |prefix| <= |s| && s[..|prefix|] == prefix
  }

  /** The provider's object ID, with the display number behind it when they differ. */
  function Locator(objectId: string, number: string): string {
    if objectId == number then objectId else PREFIX + objectId + INFIX + number
  }

  /** The display number in a locator. */
  function DisplayNumber(locator: string): Option<string> {
    if locator == "" then None
    else if HasPrefix(locator, PREFIX) then
      var at := Texts.LastIndexOf(locator, INFIX);
      if at < 0 || locator[at + |INFIX|..] == "" then None else Some(locator[at + |INFIX|..])
    else Some(locator)
  }

  /** The number neither starts with "num-" nor holds "-num-". */
  predicate PlainNumber(number: string) {
    !HasPrefix(number, INFIX[1..]) && Texts.IndexOf(number, INFIX, 0) < 0
  }

  /** The guard under which a locator can be taken apart again. */
  predicate Locatable(objectId: string, number: string) {
    number != "" && if objectId == number then !HasPrefix(objectId, PREFIX) else PlainNumber(number)
  }

  lemma {:induction false} InfixOccurrences(head: string, number: string, i: int)
    ensures var whole := head + INFIX + number;
            && Texts.IsAt(whole, INFIX, |head|)
            && (i == |head| + 4 ==> (Texts.IsAt(whole, INFIX, i) <==> HasPrefix(number, INFIX[1..])))
            && (i >= |head| + 5 ==> (Texts.IsAt(whole, INFIX, i) <==> Texts.IsAt(number, INFIX, i - |head| - 5)))
            && (|head| < i < |head| + 4 ==> !Texts.IsAt(whole, INFIX, i))
  {
    var whole := head + INFIX + number;
    assert whole[|head|..|head| + 5] == INFIX;
    if i == |head| + 4 && i <= |whole| - 5 {
      assert whole[i] == '-';
      assert whole[i..i + 5] == ['-'] + number[..4];
      assert INFIX == ['-'] + INFIX[1..];
    }
    if |head| + 5 <= i <= |whole| - 5 { assert whole[i..i + 5] == number[i - |head| - 5..i - |head|]; }
    if |head| < i < |head| + 4 && i <= |whole| - 5 {
      assert whole[i] == INFIX[i - |head|] && whole[i] != '-';
      assert whole[i..i + 5][0] == whole[i];
    }
  }

  /** The last separator is the one the locator was built with exactly when the number is plain. */
  lemma {:induction false} LastSeparator(head: string, number: string)
    ensures Texts.LastIndexOf(head + INFIX + number, INFIX) == |head| <==> PlainNumber(number)
    ensures Texts.LastIndexOf(head + INFIX + number, INFIX) >= |head|
  {
    var whole := head + INFIX + number;
    var last := Texts.LastIndexOf(whole, INFIX);
    InfixOccurrences(head, number, last);
    InfixOccurrences(head, number, |head| + 4);
    Texts.IndexOfIsLeast(number, INFIX, 0);
    var first := Texts.IndexOf(number, INFIX, 0);
    InfixOccurrences(head, number, |head| + 5 + first);
  }

  /** Taking a locator apart gives the display number back exactly when the pair is locatable. */
  lemma {:induction false} LocatorRoundTrip(objectId: string, number: string)
    ensures DisplayNumber(Locator(objectId, number)) == Some(number) <==> Locatable(objectId, number)
  {
    if objectId == number {
      if HasPrefix(objectId, PREFIX) {
        var at := Texts.LastIndexOf(objectId, INFIX);
        assert at >= 0 ==> |objectId[at + |INFIX|..]| < |objectId|;
      }
    } else {
      var head := PREFIX + objectId;
      var whole := head + INFIX + number;
      assert whole == Locator(objectId, number) && whole[..4] == PREFIX;
      LastSeparator(head, number);
      var last := Texts.LastIndexOf(whole, INFIX);
      assert whole[|head| + 5..] == number;
      assert last > |head| ==> |whole[last + 5..]| < |number|;
    }
  }

  lemma {:induction false} ObjectIdIn(objectId: string, number: string)
    requires objectId != number
    ensures var s := Locator(objectId, number);
            && |s| == |objectId| + |number| + 9 && HasPrefix(s, PREFIX) && s[4..|s| - |number| - 5] == objectId
  {
    assert Locator(objectId, number) == PREFIX + objectId + INFIX + number;
  }

  /** Locatable pairs have different locators. */
  lemma {:induction false} LocatorInjective(o: string, n: string, p: string, m: string)
    requires Locatable(o, n) && Locatable(p, m) && Locator(o, n) == Locator(p, m)
    ensures o == p && n == m
  {
    LocatorRoundTrip(o, n);
    LocatorRoundTrip(p, m);
    assert n == m;
    if o != n { ObjectIdIn(o, n); }
    if p != m { ObjectIdIn(p, m); }
  }

  /** The display number "num-7" comes back as "7". */
  lemma {:induction false} NumberIsLost()
    ensures Locator("1", "num-7") == "obj-1-num-num-7" && DisplayNumber("obj-1-num-num-7") == Some("7")
  {
    var locator := "obj-1-num-num-7";
    assert PREFIX + "1" + INFIX + "num-7" == locator && locator[..4] == PREFIX;
    assert locator[9..14] == INFIX && locator[14..] == "7";
    assert locator[10] == 'n';
    assert Texts.IsAt(locator, INFIX, 9) && !Texts.IsAt(locator, INFIX, 10);
    assert Texts.LastIndexOf(locator, INFIX) >= 9;
  }
}
