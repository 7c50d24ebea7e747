/** Strings as the code uses them: ASCII case folding, trimming, byte-wise order, decimal numerals. */
module Text {

  // ---------------------------------------------------------------------------
  // Case and blanks
  // ---------------------------------------------------------------------------

  function LowerChar(c: char): char {
    if 'A' <= c <= 'Z' then (c as int + 32) as char else c
  }

  function UpperChar(c: char): char {
    if 'a' <= c <= 'z' then (c as int - 32) as char else c
  }

  function ToLower(s: string): string {
    seq(|s|, i requires 0 <= i < |s| => LowerChar(s[i]))
  }

  function ToUpper(s: string): string {
    seq(|s|, i requires 0 <= i < |s| => UpperChar(s[i]))
  }

  predicate EqualFold(s: string, t: string) {
    ToLower(s) == ToLower(t)
  }

  predicate IsBlank(c: char) {
    c == ' ' || '\t' <= c <= '\r' || c == '\U{85}' || c == '\U{A0}'
  }

  function TrimLeft(s: string): string {
    if s != "" && IsBlank(s[0]) then TrimLeft(s[1..]) else s
  }

  function TrimRight(s: string): string {
    if s != "" && IsBlank(s[|s| - 1]) then TrimRight(s[..|s| - 1]) else s
  }

  function TrimSpace(s: string): string {
    TrimRight(TrimLeft(s))
  }

  /** Trimming takes blanks, and only blanks, off both ends. */
  lemma TrimSpaceIs(s: string)
    ensures exists before, after :: s == before + TrimSpace(s) + after &&
              (forall c :: c in before + after ==> IsBlank(c))
    ensures TrimSpace(s) != "" ==> !IsBlank(TrimSpace(s)[0]) && !IsBlank(TrimSpace(s)[|TrimSpace(s)| - 1])
  {
    var before := TrimLeftIs(s);
    var after := TrimRightIs(TrimLeft(s));
    assert s == before + TrimSpace(s) + after;
    if TrimSpace(s) != "" { assert TrimLeft(s)[0] == TrimSpace(s)[0]; }
  }

  lemma {:induction false} TrimLeftIs(s: string) returns (before: string)
    ensures s == before + TrimLeft(s) && forall c :: c in before ==> IsBlank(c)
    ensures TrimLeft(s) != "" ==> !IsBlank(TrimLeft(s)[0])
  {
    before := "";
    if s != "" && IsBlank(s[0]) {
      before := TrimLeftIs(s[1..]);
      before := [s[0]] + before;
    }
  }

  lemma {:induction false} TrimRightIs(s: string) returns (after: string)
    ensures s == TrimRight(s) + after && forall c :: c in after ==> IsBlank(c)
    ensures TrimRight(s) != "" ==> !IsBlank(TrimRight(s)[|TrimRight(s)| - 1])
    decreases |s|
  {
    after := "";
    if s != "" && IsBlank(s[|s| - 1]) {
      after := TrimRightIs(s[..|s| - 1]);
      after := after + [s[|s| - 1]];
    }
  }

  // ---------------------------------------------------------------------------
  // Order
  // ---------------------------------------------------------------------------

  predicate Less(s: string, t: string) {
    if t == "" then false
    else if s == "" then true
    else s[0] < t[0] || (s[0] == t[0] && Less(s[1..], t[1..]))
  }

  lemma LessIsStrictOrder(s: string, t: string)
    ensures !(Less(s, t) && Less(t, s))
    ensures s == t <==> !Less(s, t) && !Less(t, s)
  {
    if s != "" && t != "" && s[0] == t[0] {
      LessIsStrictOrder(s[1..], t[1..]);
      assert s == [s[0]] + s[1..] && t == [t[0]] + t[1..];
    }
  }

  lemma LessTransitive(s: string, t: string, u: string)
    requires Less(s, t) && Less(t, u)
    ensures Less(s, u)
  {
    if s != "" && s[0] == t[0] && t[0] == u[0] {
      LessTransitive(s[1..], t[1..], u[1..]);
    }
  }

  /** They agree before `k`, where `s` ends or has the smaller character. */
  predicate FirstLess(s: string, t: string, k: int) {
    0 <= k <= |s| && k < |t| && s[..k] == t[..k] && (k < |s| ==> s[k] < t[k])
  }

  lemma {:induction false} LessHasFirst(s: string, t: string) returns (k: nat)
    requires Less(s, t)
    ensures FirstLess(s, t, k)
  {
    if s == "" || s[0] != t[0] {
      k := 0;
    } else {
      k := LessHasFirst(s[1..], t[1..]);
      assert s[..k + 1] == [s[0]] + s[1..][..k] && t[..k + 1] == [t[0]] + t[1..][..k];
      k := k + 1;
    }
  }

  lemma {:induction false} FirstIsLess(s: string, t: string, k: nat)
    requires FirstLess(s, t, k)
    ensures Less(s, t)
  {
    if k > 0 {
      assert s[0] == s[..k][0] == t[..k][0] == t[0];
      assert s[1..][..k - 1] == s[..k][1..] && t[1..][..k - 1] == t[..k][1..];
      FirstIsLess(s[1..], t[1..], k - 1);
    }
  }

  /** The order is by the first difference; a proper prefix comes first. */
  lemma LessIff(s: string, t: string)
    ensures Less(s, t) <==> exists k :: FirstLess(s, t, k)
  {
    if Less(s, t) {
      var k := LessHasFirst(s, t);
    } else if k :| FirstLess(s, t, k) {
      FirstIsLess(s, t, k);
    }
  }

  /** Folding changes capital letters alone, each to its small letter. */
  lemma FoldsCapitals(s: string, i: nat)
    requires i < |s|
    ensures |ToLower(s)| == |s| && |ToUpper(s)| == |s|
    ensures 'A' <= s[i] <= 'Z' ==> ToLower(s)[i] as int - 'a' as int == s[i] as int - 'A' as int
    ensures 'a' <= s[i] <= 'z' ==> ToUpper(s)[i] as int - 'A' as int == s[i] as int - 'a' as int
    ensures !('A' <= s[i] <= 'Z') ==> ToLower(s)[i] == s[i]
    ensures !('a' <= s[i] <= 'z') ==> ToUpper(s)[i] == s[i]
  {}

  // ---------------------------------------------------------------------------
  // Numerals
  // ---------------------------------------------------------------------------

  predicate IsDigit(c: char) {
    '0' <= c <= '9'
  }

  predicate AllDigits(s: string) {
    forall i :: 0 <= i < |s| ==> IsDigit(s[i])
  }

  function DigitChar(d: nat): char
    requires d < 10
  {
    (d + '0' as int) as char
  }

  function NatText(n: nat): (s: string)
    ensures s != "" && AllDigits(s)
  {
    if n < 10 then [DigitChar(n)] else NatText(n / 10) + [DigitChar(n % 10)]
  }

  function IntText(n: int): string {
    if n < 0 then "-" + NatText(-n) else NatText(n)
  }

  function NatValue(s: string): nat
    requires AllDigits(s)
  {
    if s == "" then 0 else 10 * NatValue(s[..|s| - 1]) + (s[|s| - 1] as int - '0' as int)
  }

  lemma {:induction false} NatValueOfText(n: nat)
    ensures NatValue(NatText(n)) == n
  {
    var s := NatText(n);
    if n < 10 {
      assert s[..0] == "" && NatValue("") == 0;
    } else {
      NatValueOfText(n / 10);
      assert s[..|s| - 1] == NatText(n / 10);
    }
  }

  lemma NatTextInjective(m: nat, n: nat)
    requires NatText(m) == NatText(n)
    ensures m == n
  {
    NatValueOfText(m);
    NatValueOfText(n);
  }

  // ---------------------------------------------------------------------------
  // Parts
  // ---------------------------------------------------------------------------

  predicate OccursAt(part: string, s: string, i: int) {
    0 <= i <= |s| - |part| && s[i..i + |part|] == part
  }

  predicate Occurs(part: string, s: string) {
    exists i | 0 <= i <= |s| - |part| :: OccursAt(part, s, i)
  }

  /** A part occurs where the text is made of something before, the part, and something after. */
  lemma OccursIff(part: string, s: string)
    ensures Occurs(part, s) <==> exists before, after :: s == before + part + after
  {
    if i :| 0 <= i <= |s| - |part| && OccursAt(part, s, i) {
      assert s == s[..i] + part + s[i + |part|..];
    }
    if before, after :| s == before + part + after {
      assert OccursAt(part, s, |before|);
    }
  }
}
