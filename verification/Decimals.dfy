/** User ids travel as decimal strings: strconv.FormatUint, FormatInt and Atoi. */
module Decimals {
  import opened GoRuntime

  function Digit(d: nat): char
    requires d < 10
  {
    '0' + d as char
  }

  function FormatUint(n: nat): (s: string)
    ensures s != [] && IsDigits(s)
  {
    if n < 10 then [Digit(n)] else FormatUint(n / 10) + [Digit(n % 10)]
  }

  /** int64 in, sign and digits out. */
  function FormatInt(n: int): string {
    if n < 0 then "-" + FormatUint(-n) else FormatUint(n)
  }

  predicate IsDigits(s: string) {
    forall i :: 0 <= i < |s| ==> '0' <= s[i] <= '9'
  }

  function Value(s: string): nat
    requires IsDigits(s)
  {
    if s == [] then 0 else Value(s[..|s| - 1]) * 10 + (s[|s| - 1] as int - '0' as int)
  }

  /** strconv.Atoi with its error dropped: a number out of range comes out as the largest int64. */
  function Atoi(s: string): int
    requires IsDigits(s)
  {
    if Value(s) > MAX_INT64 then MAX_INT64 else Value(s)
  }

  lemma {:induction false} ValueOfFormat(n: nat)
    ensures Value(FormatUint(n)) == n
  {
    if n >= 10 {
      ValueOfFormat(n / 10);
      var s := FormatUint(n);
      assert s[..|s| - 1] == FormatUint(n / 10) && s[|s| - 1] == Digit(n % 10);
    } else {
      var s := FormatUint(n);
      assert s[..|s| - 1] == [] && s[|s| - 1] == Digit(n);
    }
  }

  lemma FormatInjective(m: nat, n: nat)
    requires FormatUint(m) == FormatUint(n)
    ensures m == n
  {
    ValueOfFormat(m);
    ValueOfFormat(n);
  }

  /** Spellings have no leading zero, so a number has one spelling only: that of its decimal value. */
  lemma {:induction false} FormatCanonical(n: nat)
    ensures |FormatUint(n)| > 1 ==> FormatUint(n)[0] != '0'
  {
    if n >= 10 {
      FormatCanonical(n / 10);
      ValueOfFormat(n / 10);
    }
  }

  /**
   * A waiting-list member is read back as the user that was stored exactly when
   * its id fits int64; a larger id comes back as the largest int64.
   */
  lemma MemberRoundTrip(userId: nat)
    ensures Atoi(FormatUint(userId)) == userId <==> userId <= 9_223_372_036_854_775_807
    ensures userId > 9_223_372_036_854_775_807 ==> Atoi(FormatUint(userId)) == 9_223_372_036_854_775_807
  {
    ValueOfFormat(userId);
  }

  /**
   * The leaderboard's spelling of a game player agrees with the spelling in the
   * player's answers exactly when the id fits int64; a larger id is spelled as
   * the negative number it wraps to.
   */
  lemma SpellingsAgree(userId: nat)
    requires userId < 18_446_744_073_709_551_616
    ensures FormatInt(Wrap64(userId)) == FormatUint(userId) <==> userId <= 9_223_372_036_854_775_807
    ensures userId > 9_223_372_036_854_775_807 ==>
      FormatInt(Wrap64(userId)) == "-" + FormatUint(18_446_744_073_709_551_616 - userId)
  {
    if userId > MAX_INT64 {
      assert Wrap64(userId) == userId - TWO_64;
      assert FormatInt(Wrap64(userId))[0] == '-';
      assert '0' <= FormatUint(userId)[0];
    }
  }
}
