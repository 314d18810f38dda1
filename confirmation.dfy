/** The six-digit code entry of src/components/login/ConfirmationScreen.tsx. The
    `setTimeout` that verifies a complete code is the separate event
    `VerifyCode`, and the outcome of Privy's `login` is its parameter. */
module Confirmation {
  import opened Wrappers
  import opened JsText

  const CodeLength := 6

  /** An input box holds nothing or one decimal digit (`/^\d$/`). */
  predicate Entry(s: string)
  {
    s == "" || (|s| == 1 && IsDigit(s[0]))
  }

  /** `/^\d$/.test(s)` */
  predicate SingleDigit(s: string)
  {
    |s| == 1 && IsDigit(s[0])
  }

  /** `code.join('')` */
  function Join(code: seq<string>): string
  {
    if code == [] then "" else Join(code[..|code| - 1]) + code[|code| - 1]
  }

  /** Joining single digits gives one digit per box. */
  lemma {:induction false} JoinDigits(code: seq<string>)
    requires forall i :: 0 <= i < |code| ==> |code[i]| == 1 && IsDigit(code[i][0])
    ensures |Join(code)| == |code| && AllDigits(Join(code))
            && forall i :: 0 <= i < |code| ==> Join(code)[i] == code[i][0]
  {
    if code != [] {
      JoinDigits(code[..|code| - 1]);
    }
  }

  /** `['', '', '', '', '', '']` */
  function EmptyCode(): (r: seq<string>)
    ensures |r| == CodeLength && forall i :: 0 <= i < |r| ==> r[i] == ""
  {
    ["", "", "", "", "", ""]
  }

  class ConfirmationScreen {
    var code: seq<string>
    var isSuccess: bool
    /** `PRIVY_APP_ID && PRIVY_APP_ID.trim() !== ''` */
    const hasPrivy: bool

    /** Six boxes, each empty or holding one digit. */
    ghost predicate Valid()
      reads this
    {
      |code| == CodeLength && forall i :: 0 <= i < |code| ==> Entry(code[i])
    }

    constructor (hasPrivy: bool)
      ensures Valid() && code == EmptyCode() && !isSuccess && this.hasPrivy == hasPrivy
    {
      code := EmptyCode();
      isSuccess := false;
      this.hasPrivy := hasPrivy;
    }

    /** `handleCodeChange(index, value)` for the box at `index`. A value longer than
        one character is a paste: its first six characters go to the boxes from
        `index` on, digits only, and nothing is verified. Otherwise a digit or an
        empty value goes to box `index`, and a complete code is returned for
        verification. */
    method HandleCodeChange(index: nat, value: string) returns (verify: Option<string>)
      requires Valid() && index < CodeLength
      modifies this
      ensures Valid() && isSuccess == old(isSuccess)
      ensures |value| > 1 ==>
                var pasted := if |value| < CodeLength then value else value[..CodeLength];
                && verify == None
                && forall j :: 0 <= j < CodeLength ==>
                     code[j] == (if index <= j < index + |pasted| && IsDigit(pasted[j - index])
                                 then [pasted[j - index]] else old(code)[j])
      ensures |value| <= 1 && !Entry(value) ==> code == old(code) && verify == None
      ensures |value| <= 1 && Entry(value) ==>
                && code == old(code)[index := value]
                && (verify.Some? <==> forall j :: 0 <= j < CodeLength ==> code[j] != "")
                && (verify.Some? ==> verify.value == Join(code))
      ensures verify.Some? ==> |verify.value| == CodeLength && AllDigits(verify.value)
    {
      if |value| > 1 {
        var pasted := if |value| < CodeLength then value else value[..CodeLength];
        var newCode := code;
        var i := 0;
        while i < |pasted|
          invariant 0 <= i <= |pasted| && |newCode| == CodeLength
          invariant forall j :: 0 <= j < CodeLength ==>
                      newCode[j] == (if index <= j < index + i && IsDigit(pasted[j - index])
                                     then [pasted[j - index]] else code[j])
        {
          if index + i < CodeLength && IsDigit(pasted[i]) {
            newCode := newCode[index + i := [pasted[i]]];
          }
          i := i + 1;
        }
        code := newCode;
        return None;
      }
      if !SingleDigit(value) && value != "" {
        return None;
      }
      var newCode := code[index := value];
      code := newCode;
      verify := None;
      if forall j :: 0 <= j < CodeLength ==> newCode[j] != "" {
        JoinDigits(newCode);
        verify := Some(Join(newCode));
      }
    }

    /** The timeout after a complete code: success is shown, then
        `handleVerifyCode` runs; a failed Privy login clears the boxes. Without
        Privy nothing is verified. */
    method VerifyCode(loginFails: bool)
      requires Valid()
      modifies this
      ensures Valid()
      ensures hasPrivy && loginFails ==> code == EmptyCode() && !isSuccess
      ensures !(hasPrivy && loginFails) ==> code == old(code) && isSuccess
    {
      isSuccess := true;
      if !hasPrivy {
        return;
      }
      if loginFails {
        code := EmptyCode();
        isSuccess := false;
      }
    }

    /** `handleResend`: with Privy, the boxes are cleared before a new code is requested. */
    method HandleResend()
      requires Valid()
      modifies this
      ensures Valid()
      ensures hasPrivy ==> code == EmptyCode() && !isSuccess
      ensures !hasPrivy ==> code == old(code) && isSuccess == old(isSuccess)
    {
      if !hasPrivy {
        return;
      }
      code := EmptyCode();
      isSuccess := false;
    }
  }
}
