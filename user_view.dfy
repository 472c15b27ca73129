/** The user view's derived fields: the user-type description and the masking of
    the phone number and e-mail address shown to other users. Positions count
    characters (Unicode scalar values). */
module UserView {

  import opened Wrappers

  /** getUserTypeDesc: 0 employer, 1 developer, 2 both, any other code unknown,
      and no description for a null type. */
  function UserTypeDesc(userType: Option<int>): (r: Option<string>)
    ensures r.None? <==> userType.None?
    ensures userType.Some? && !(0 <= userType.value <= 2) ==> r == Some("未知")
  {
    if userType.None? then None
    else if userType.value == 0 then Some("需求方")
    else if userType.value == 1 then Some("程序员")
    else if userType.value == 2 then Some("需求方/程序员")
    else Some("未知")
  }

  /** The three known types have three different descriptions, none of them the
      unknown one. */
  lemma UserTypeDescDistinct(a: int, b: int)
    requires 0 <= a <= 2 && 0 <= b <= 2
    ensures UserTypeDesc(Some(a)) == UserTypeDesc(Some(b)) <==> a == b
    ensures UserTypeDesc(Some(a)) != Some("未知")
  {
    var d := UserTypeDesc(Some(a)).value;
    var e := UserTypeDesc(Some(b)).value;
    if a != b {
      assert d[0] != e[0] || |d| != |e|;
    }
  }

  const PHONE_LENGTH := 11
  const PHONE_MASK := "****"

  /** maskPhone: an 11-character number keeps its first 3 and last 4 characters and has the
      middle 4 replaced by stars; null or any other length is returned as is. */
  function MaskPhone(phone: Option<string>): (r: Option<string>)
    ensures r.None? <==> phone.None?
    ensures phone.Some? && |phone.value| != PHONE_LENGTH ==> r == phone
    ensures phone.Some? ==> |r.value| == |phone.value|
    ensures phone.Some? && |phone.value| == PHONE_LENGTH ==>
      r.value[..3] == phone.value[..3] && r.value[7..] == phone.value[7..]
      && forall i :: 3 <= i < 7 ==> r.value[i] == '*'
  {
    if phone.None? || |phone.value| != PHONE_LENGTH then phone
    else Some(phone.value[..3] + PHONE_MASK + phone.value[7..])
  }

  /** Masking an already masked number changes nothing. */
  lemma MaskPhoneIdempotent(phone: Option<string>)
    ensures MaskPhone(MaskPhone(phone)) == MaskPhone(phone)
  {
    if phone.Some? && |phone.value| == PHONE_LENGTH {
      var m := MaskPhone(phone).value;
      assert m[..3] + PHONE_MASK + m[7..] == m;
    }
  }

  /** Two numbers share a masked form exactly when they agree outside the
      masked middle. */
  lemma MaskPhoneCollides(p: string, q: string)
    requires |p| == PHONE_LENGTH && |q| == PHONE_LENGTH
    ensures MaskPhone(Some(p)) == MaskPhone(Some(q)) <==> p[..3] == q[..3] && p[7..] == q[7..]
  {
    var mp := MaskPhone(Some(p)).value;
    var mq := MaskPhone(Some(q)).value;
    if p[..3] == q[..3] && p[7..] == q[7..] {
      assert mp == mq;
    }
  }

  /** The masked phone of the account used by the user-service unit test. */
  lemma MaskPhoneExample()
    ensures MaskPhone(Some("13800138000")) == Some("138****8000")
  {
    assert "13800138000"[..3] == "138";
    assert "13800138000"[7..] == "8000";
    assert "138" + PHONE_MASK + "8000" == "138****8000";
  }

  /** email.indexOf("@") from index `i` on: the first '@', if any. */
  function AtFrom(s: string, i: nat): (r: Option<nat>)
    requires i <= |s|
    ensures r.Some? ==> i <= r.value < |s| && s[r.value] == '@'
    ensures r.Some? ==> forall k :: i <= k < r.value ==> s[k] != '@'
    ensures r.None? <==> forall k :: i <= k < |s| ==> s[k] != '@'
    decreases |s| - i
  {
    if i == |s| then None
    else if s[i] == '@' then Some(i)
    else AtFrom(s, i + 1)
  }

  function At(s: string): Option<nat>
  {
    AtFrom(s, 0)
  }

  /** maskEmail: null, an address without '@' or with its first '@' at index 2
      or earlier is returned as is; otherwise the first two units are kept,
      followed by three stars and everything from the first '@' on. */
  function MaskEmail(email: Option<string>): (r: Option<string>)
    ensures r.None? <==> email.None?
    ensures email.Some? && (At(email.value).None? || At(email.value).value <= 2) ==> r == email
    ensures email.Some? && At(email.value).Some? && At(email.value).value > 2 ==>
      var e := email.value;
      var a := At(e).value;
      |r.value| == 5 + |e| - a && r.value[..2] == e[..2] && r.value[2..5] == "***" && r.value[5..] == e[a..]
  {
    if email.None? || At(email.value).None? then email
    else
      var a := At(email.value).value;
      if a <= 2 then email
      else Some(email.value[..2] + "***" + email.value[a..])
  }

  /** After masking, the first '@' sits at index 5, so the domain is kept whole
      and the local part always reads as two units and three stars. */
  lemma {:induction false} MaskedAtFive(e: string)
    requires At(e).Some? && At(e).value > 2
    ensures At(MaskEmail(Some(e)).value) == Some(5)
  {
    var m := MaskEmail(Some(e)).value;
    var a := At(e).value;
    assert m[5] == e[a] == '@';
    forall k | 0 <= k < 5
      ensures m[k] != '@'
    {
      if k < 2 {
        assert m[k] == e[k];
      } else {
        assert m[k] == '*';
      }
    }
    AtFromFirst(m, 0, 5);
  }

  /** If `j` holds an '@' and nothing between `i` and `j` does, the search from
      `i` finds `j`. */
  lemma {:induction false} AtFromFirst(s: string, i: nat, j: nat)
    requires i <= j < |s| && s[j] == '@'
    requires forall k :: i <= k < j ==> s[k] != '@'
    ensures AtFrom(s, i) == Some(j)
    decreases j - i
  {
    if i < j {
      AtFromFirst(s, i + 1, j);
    }
  }

  /** Masking a masked address changes nothing. */
  lemma MaskEmailIdempotent(email: Option<string>)
    ensures MaskEmail(MaskEmail(email)) == MaskEmail(email)
  {
    if email.Some? && At(email.value).Some? && At(email.value).value > 2 {
      var m := MaskEmail(email).value;
      MaskedAtFive(email.value);
      assert m[..2] + "***" + m[5..] == m;
    }
  }

  /** The masked e-mail of the account used by the user-service unit test. */
  lemma MaskEmailExample()
    ensures MaskEmail(Some("test@example.com")) == Some("te***@example.com")
  {
    ExampleAt();
    ExamplePieces();
  }

  lemma ExamplePieces()
    ensures "test@example.com"[..2] + "***" + "test@example.com"[4..] == "te***@example.com"
  {
    var e := "test@example.com";
    assert e[..2] == "te";
    assert e[4..] == "@example.com";
    assert "te" + "***" + "@example.com" == "te***@example.com";
  }

  lemma ExampleAt()
    ensures At("test@example.com") == Some(4)
  {
    var e := "test@example.com";
    assert e[0] != '@' && e[1] != '@' && e[2] != '@' && e[3] != '@' && e[4] == '@';
    AtFromFirst(e, 0, 4);
  }
}
