/** Signed cookie values, over an abstract message authentication code. */
module Session {
  import opened ReportTypes
  import opened Hex

  /** Key and message to tag. */
  type Mac = (string, string) -> seq<Byte>

  function SignValue(mac: Mac, secret: string, value: string): string {
    value + "." + Hex.Encode(mac(secret, value))
  }

  /** The position of the last dot. */
  function LastDot(s: string): (i: Option<nat>)
    ensures i.Some? ==> i.value < |s| && s[i.value] == '.' && forall j :: i.value < j < |s| ==> s[j] != '.'
    ensures i.None? ==> '.' !in s
  {
    if s == [] then None
    else if s[|s| - 1] == '.' then Some(|s| - 1)
    else LastDot(s[..|s| - 1])
  }

  function VerifyValue(mac: Mac, secret: string, signed: string): Option<string> {
    match LastDot(signed)
    case None => None
    case Some(i) =>
      var value, sig := signed[..i], Hex.Decode(signed[i + 1..]);
      if sig == Some(mac(secret, value)) then Some(value) else None
  }

  /** A signed value verifies to itself, dots and all. */
  lemma SignedVerifies(mac: Mac, secret: string, value: string)
    ensures VerifyValue(mac, secret, SignValue(mac, secret, value)) == Some(value)
  {
    var tag := Hex.Encode(mac(secret, value));
    var s := SignValue(mac, secret, value);
    EncodeOnlyDigits(mac(secret, value));
    forall j | |value| < j < |s| ensures s[j] != '.' {
      assert s[j] == tag[j - |value| - 1];
    }
    assert s[|value|] == '.';
    assert LastDot(s) == Some(|value|);
    assert s[..|value|] == value && s[|value| + 1..] == tag;
    Hex.RoundTrip(mac(secret, value));
  }

  /** And what verifies is a value followed by a dot and its own tag, in either case of hex. */
  lemma VerifiedIsTagged(mac: Mac, secret: string, signed: string, value: string)
    ensures VerifyValue(mac, secret, signed) == Some(value) <==>
      |value| < |signed| && signed[..|value|] == value && signed[|value|] == '.'
      && Hex.Decode(signed[|value| + 1..]) == Some(mac(secret, value))
  {
    if |value| < |signed| && signed[|value|] == '.' && Hex.Decode(signed[|value| + 1..]).Some? {
      var tag := signed[|value| + 1..];
      OnlyDigits(tag);
      forall j | |value| < j < |signed| ensures signed[j] != '.' {
        assert signed[j] == tag[j - |value| - 1];
      }
      assert LastDot(signed) == Some(|value|);
    }
  }
}
