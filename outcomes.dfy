/** How a service operation ends. The services signal failure by raising
    KeyError (not found), ValueError (no caller) or AssertionError (not the
    owner); here each is a constructor of `Outcome`, carrying the exception's
    message where the routers pass that message on. */
module Outcomes {

  datatype Option<+T> = None | Some(value: T)

  datatype Outcome<+T> =
    | Ok(value: T)
    | NotFound(msg: string)
    | Unauthorized
    | Forbidden(msg: string)

  /** `part` occurs in `s` starting at index `i`. */
  ghost predicate OccursAt(s: string, part: string, i: int) {
    0 <= i <= |s| - |part| && s[i..i + |part|] == part
  }

  /** `s` has `part` as a contiguous piece. */
  ghost predicate Contains(s: string, part: string) {
    exists i :: OccursAt(s, part, i)
  }

  // ---------------------------------------------------------------------------
  // Decimal rendering of ids, as Python's f"{n}" writes an int.
  // ---------------------------------------------------------------------------

  predicate IsDigit(c: char) { '0' as int <= c as int <= '9' as int }

  function DigitChar(d: nat): (c: char)
    requires d < 10
    ensures IsDigit(c) && (c as int) - ('0' as int) == d
  {
    ('0' as int + d) as char
  }

  /** The decimal digits of `n`, most significant first, without leading zeros. */
  function NatToString(n: nat): (s: string)
    ensures |s| >= 1 && forall i :: 0 <= i < |s| ==> IsDigit(s[i])
    ensures |s| > 1 ==> s[0] != '0'
  {
    if n < 10 then [DigitChar(n)] else NatToString(n / 10) + [DigitChar(n % 10)]
  }

  /** A negative number gets a leading '-', as in Python; what follows the
      sign is the decimal digits of the magnitude, without leading zeros. */
  function IntToString(n: int): (s: string)
    ensures |s| >= 1
    ensures s[0] == '-' <==> n < 0
    ensures n < 0 ==> |s| >= 2
    ensures forall i :: (if n < 0 then 1 else 0) <= i < |s| ==> IsDigit(s[i])
    ensures |s| > (if n < 0 then 1 else 0) + 1 ==> s[if n < 0 then 1 else 0] != '0'
  {
    if n < 0 then "-" + NatToString(-n) else NatToString(n)
  }

  /** The value of a string of decimal digits. */
  function DigitsValue(s: string): (v: nat)
    requires forall i :: 0 <= i < |s| ==> IsDigit(s[i])
  {
    if s == [] then 0
    else
      assert IsDigit(s[|s| - 1]);
      DigitsValue(s[..|s| - 1]) * 10 + ((s[|s| - 1] as int) - ('0' as int))
  }

  /** Reads back what `IntToString` writes. */
  function ParseInt(s: string): int
    requires |s| >= 1
    requires s[0] == '-' || IsDigit(s[0])
    requires forall i :: 1 <= i < |s| ==> IsDigit(s[i])
  {
    if s[0] == '-' then -(DigitsValue(s[1..]) as int) else DigitsValue(s)
  }

  lemma {:induction false} NatToStringRoundTrip(n: nat)
    ensures DigitsValue(NatToString(n)) == n
  {
    if n >= 10 {
      var s := NatToString(n);
      assert s[..|s| - 1] == NatToString(n / 10);
      NatToStringRoundTrip(n / 10);
    }
  }

  /** The rendering of an id determines the id: decimal rendering round-trips. */
  lemma IntToStringRoundTrip(n: int)
    ensures ParseInt(IntToString(n)) == n
  {
    var s := IntToString(n);
    if n < 0 {
      assert s[1..] == NatToString(-n);
      NatToStringRoundTrip(-n);
    } else {
      NatToStringRoundTrip(n);
    }
  }

  // ---------------------------------------------------------------------------
  // The exact failure messages of the services.
  // ---------------------------------------------------------------------------

  /** f"{entity} with id: {id} not found" */
  function NotFoundMessage(entity: string, id: int): string {
    entity + " with id: " + IntToString(id) + " not found"
  }

  function QuestionNotFound(questionId: int): string {
    NotFoundMessage("Question", questionId)
  }

  function AnswerNotFound(answerId: int): string {
    NotFoundMessage("Answer", answerId)
  }

  const NotOwnerMessage: string := "You can delete only your own answers"

  const UnauthorizedMessage: string := "Unauthorized"

  /** Every not-found message says "not found" (what clients look for, in lower case). */
  lemma NotFoundMessageSaysNotFound(entity: string, id: int)
    ensures Contains(NotFoundMessage(entity, id), "not found")
  {
    var s := NotFoundMessage(entity, id);
    assert OccursAt(s, "not found", |s| - 9);
  }

  /** The ownership message says "own". */
  lemma NotOwnerMessageSaysOwn()
    ensures Contains(NotOwnerMessage, "own")
  {
    assert OccursAt(NotOwnerMessage, "own", 25);
  }

  /** A not-found message names its id: for one entity, equal messages mean equal ids. */
  lemma NotFoundMessageNamesId(entity: string, id1: int, id2: int)
    requires NotFoundMessage(entity, id1) == NotFoundMessage(entity, id2)
    ensures id1 == id2
  {
    var s := NotFoundMessage(entity, id1);
    var n1, n2 := IntToString(id1), IntToString(id2);
    var k := |entity| + 10;
    assert |n1| == |n2|;
    assert n1 == s[k..k + |n1|] == n2;
    IntToStringRoundTrip(id1);
    IntToStringRoundTrip(id2);
  }
}
