/** The few pieces of JavaScript string behaviour the core relies on. */
module JsStrings {

  /** A value handed to a validator. Request bodies can lack a field
      (`undefined`) or carry a number; everything that is not a string is
      `NonText`, because every validator treats those alike. */
  datatype Arg = Text(s: string) | NonText

  /** The rule every `validate*` text check of the models applies: a string
      is accepted unless it is exactly one space; a non-string is not
      accepted (the validator falls off its end and yields `undefined`). */
  function ValidText(a: Arg): (ok: bool)
    ensures ok ==> a.Text?
    ensures a.Text? && |a.s| != 1 ==> ok
  {
    a.Text? && a.s != " "
  }

  /** The validator rejects exactly one string, and accepts the empty one. */
  lemma ValidTextRejectsOnlyOneSpace(s: string)
    ensures ValidText(Text(s)) <==> !(|s| == 1 && s[0] == ' ')
    ensures ValidText(Text(""))
    ensures !ValidText(NonText)
  {
    if |s| == 1 && s[0] == ' ' {
      assert s == " ";
    }
  }

  /** `toLowerCase` on the ASCII range. */
  function LowerChar(c: char): (d: char)
    ensures 'A' <= c <= 'Z' ==> 'a' <= d <= 'z'
    ensures !('A' <= c <= 'Z') ==> d == c
  {
    if 'A' <= c <= 'Z' then (c as int - 'A' as int + 'a' as int) as char else c
  }

  function Lower(s: string): (r: string)
    ensures |r| == |s|
    ensures forall i :: 0 <= i < |s| ==> r[i] == LowerChar(s[i])
  {
    if s == [] then [] else [LowerChar(s[0])] + Lower(s[1..])
  }

  /** Lower-casing twice is lower-casing once. */
  lemma LowerIdempotent(s: string)
    ensures Lower(Lower(s)) == Lower(s)
  {
    var once := Lower(s);
    var twice := Lower(once);
    assert |twice| == |once|;
    forall i | 0 <= i < |s|
      ensures twice[i] == once[i]
    {
      assert once[i] == LowerChar(s[i]);
    }
  }

  function DigitChar(d: nat): (c: char)
    requires d < 10
    ensures '0' <= c <= '9'
  {
    ('0' as int + d) as char
  }

  /** The decimal text of a number, as a template literal renders an id. */
  function NatText(n: nat): (r: string)
    ensures |r| >= 1
    ensures forall i :: 0 <= i < |r| ==> '0' <= r[i] <= '9'
    ensures n >= 10 ==> |r| >= 2
  {
    if n < 10 then [DigitChar(n)] else NatText(n / 10) + [DigitChar(n % 10)]
  }

  /** Different numbers have different decimal texts, so matching an id
      against the text of a number matches that number only. */
  lemma {:induction false} NatTextInjective(a: nat, b: nat)
    requires NatText(a) == NatText(b)
    ensures a == b
  {
    if a < 10 && b < 10 {
      assert NatText(a)[0] == DigitChar(a);
    } else if a >= 10 && b >= 10 {
      var ta, tb := NatText(a), NatText(b);
      assert ta[|ta| - 1] == DigitChar(a % 10);
      assert tb[|tb| - 1] == DigitChar(b % 10);
      assert ta[..|ta| - 1] == NatText(a / 10);
      assert tb[..|tb| - 1] == NatText(b / 10);
      NatTextInjective(a / 10, b / 10);
    }
  }

  /** The text a row object turns into under JavaScript's loose `!=`
      against a string. */
  const ObjectText: string := "[object Object]"
}
