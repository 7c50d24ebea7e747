/** The signed admin session payload: printed, signed, verified and parsed back. */
module Sessions {
  import opened Options
  import opened Text

  /** The hexadecimal message authentication code of a value under the session secret. */
  type Mac = string -> string

  const MIN_INT64 := -0x8000_0000_0000_0000
  const MAX_INT64 := 0x7fff_ffff_ffff_ffff

  predicate IsInt64(n: int) {
    MIN_INT64 <= n <= MAX_INT64
  }

  /** Hexadecimal digits include no dot. */
  ghost predicate Dotless(mac: Mac) {
    forall v: string :: '.' !in mac(v)
  }

  // ---------------------------------------------------------------------------
  // Signing
  // ---------------------------------------------------------------------------

  function SignValue(value: string, mac: Mac): string {
    value + "." + mac(value)
  }

  /** The position of the last `c`, or -1. */
  function LastIndex(s: string, c: char): (i: int)
    ensures -1 <= i < |s|
  {
    if s == "" then -1 else if s[|s| - 1] == c then |s| - 1 else LastIndex(s[..|s| - 1], c)
  }

  lemma {:induction false} LastIndexFinds(s: string, c: char)
    ensures LastIndex(s, c) >= 0 ==> s[LastIndex(s, c)] == c
    decreases |s|
  {
    if s != "" && s[|s| - 1] != c { LastIndexFinds(s[..|s| - 1], c); }
  }

  lemma {:induction false} LastIndexSplits(s: string, c: char, rest: string)
    requires c !in rest
    ensures LastIndex(s + [c] + rest, c) == |s|
    decreases |rest|
  {
    var whole := s + [c] + rest;
    if rest != "" {
      assert whole[..|whole| - 1] == s + [c] + rest[..|rest| - 1];
      assert whole[|whole| - 1] == rest[|rest| - 1];
      LastIndexSplits(s, c, rest[..|rest| - 1]);
    }
  }

  function VerifySignature(signed: string, mac: Mac): Option<string> {
    var dot := LastIndex(signed, '.');
    if dot == -1 then None
    else if mac(signed[..dot]) == signed[dot + 1..] then Some(signed[..dot])
    else None
  }

  /** A string verifies, to a value, exactly when it is the signature of that value. */
  lemma VerifiesIffSigned(signed: string, value: string, mac: Mac)
    requires Dotless(mac)
    ensures VerifySignature(signed, mac) == Some(value) <==> signed == SignValue(value, mac)
  {
    var dot := LastIndex(signed, '.');
    LastIndexFinds(signed, '.');
    LastIndexSplits(value, '.', mac(value));
    if dot >= 0 {
      assert signed == signed[..dot] + "." + signed[dot + 1..];
    }
    var printed := SignValue(value, mac);
    assert printed[..|value|] == value && printed[|value| + 1..] == mac(value);
  }

  // ---------------------------------------------------------------------------
  // Fields
  // ---------------------------------------------------------------------------

  /** The pieces between the separators; always at least one. */
  function Split(s: string, c: char): (parts: seq<string>)
    ensures |parts| > 0
  {
    if s == "" then [""]
    else
      var rest := Split(s[1..], c);
      if s[0] == c then [""] + rest else [[s[0]] + rest[0]] + rest[1..]
  }

  function CountOf(s: string, c: char): nat {
    if s == "" then 0 else (if s[0] == c then 1 else 0) + CountOf(s[1..], c)
  }

  lemma {:induction false} SplitCounts(s: string, c: char)
    ensures |Split(s, c)| == CountOf(s, c) + 1
  {
    if s != "" { SplitCounts(s[1..], c); }
  }

  lemma {:induction false} CountOfAppend(s: string, t: string, c: char)
    ensures CountOf(s + t, c) == CountOf(s, c) + CountOf(t, c)
  {
    if s == "" {
      assert s + t == t;
    } else {
      assert (s + t)[1..] == s[1..] + t;
      CountOfAppend(s[1..], t, c);
    }
  }

  lemma {:induction false} CountOfZero(s: string, c: char)
    ensures CountOf(s, c) == 0 <==> c !in s
  {
    if s != "" {
      CountOfZero(s[1..], c);
      assert s == [s[0]] + s[1..];
    }
  }

  lemma {:induction false} SplitFirst(field: string, rest: string, c: char)
    requires c !in field
    ensures Split(field + [c] + rest, c) == [field] + Split(rest, c)
  {
    if field == "" {
      assert field + [c] + rest == [c] + rest;
    } else {
      assert (field + [c] + rest)[1..] == field[1..] + [c] + rest;
      SplitFirst(field[1..], rest, c);
      assert field == [field[0]] + field[1..];
    }
  }

  lemma {:induction false} SplitWhole(field: string, c: char)
    requires c !in field
    ensures Split(field, c) == [field]
  {
    if field != "" {
      SplitWhole(field[1..], c);
      assert field == [field[0]] + field[1..];
    }
  }

  // ---------------------------------------------------------------------------
  // Numbers
  // ---------------------------------------------------------------------------

  /** What the integer parser returns beside its error: 0 for bad syntax, the nearest bound when out of range. */
  function ParseInt64(s: string): int {
    var negative := s != "" && s[0] == '-';
    var digits := if s != "" && (s[0] == '-' || s[0] == '+') then s[1..] else s;
    if digits == "" || !AllDigits(digits) then 0
    else
      var n: int := if negative then 0 - NatValue(digits) else NatValue(digits);
      if n < MIN_INT64 then MIN_INT64 else if n > MAX_INT64 then MAX_INT64 else n
  }

  lemma ParsesPrinted(n: int)
    requires IsInt64(n)
    ensures ParseInt64(IntText(n)) == n
  {
    if n < 0 {
      NatValueOfText(-n);
      assert IntText(n)[1..] == NatText(-n);
    } else {
      NatValueOfText(n);
      assert IsDigit(NatText(n)[0]);
    }
  }

  lemma PrintedHasNo(n: int, c: char)
    requires !IsDigit(c) && c != '-'
    ensures c !in IntText(n)
  {
    var digits := NatText(if n < 0 then -n else n);
    assert forall i :: 0 <= i < |digits| ==> IsDigit(digits[i]);
  }

  // ---------------------------------------------------------------------------
  // The payload
  // ---------------------------------------------------------------------------

  const VERSION := "v2"

  datatype Session = Session(email: string, issued: int, expires: int, idleDeadline: int)

  function FormatPayload(s: Session): string {
    VERSION + "|" + (s.email + "|" + (IntText(s.issued) + "|" + (IntText(s.expires) + "|" + IntText(s.idleDeadline))))
  }

  function ParsePayload(signed: string, mac: Mac): Option<Session> {
    match VerifySignature(signed, mac)
    case None => None
    case Some(value) =>
      if !(VERSION + "|" <= value) then
        // a value from before versions is the plain email
        if value != "" && '|' !in value then Some(Session(value, 0, 0, 0)) else None
      else
        var parts := Split(value, '|');
        if |parts| != 5 then None
        else Some(Session(parts[1], ParseInt64(parts[2]), ParseInt64(parts[3]), ParseInt64(parts[4])))
  }

  predicate FitsInt64(s: Session) {
    IsInt64(s.issued) && IsInt64(s.expires) && IsInt64(s.idleDeadline)
  }

  lemma CountOfField(field: string, rest: string, c: char)
    ensures CountOf(field + [c] + rest, c) == CountOf(field, c) + 1 + CountOf(rest, c)
  {
    CountOfAppend(field + [c], rest, c);
    CountOfAppend(field, [c], c);
    assert CountOf([c], c) == 1 + CountOf([c][1..], c) == 1;
  }

  lemma PayloadCounts(s: Session)
    ensures CountOf(FormatPayload(s), '|') == 4 + CountOf(s.email, '|')
  {
    hide IntText;
    var i, x, d := IntText(s.issued), IntText(s.expires), IntText(s.idleDeadline);
    forall n: int ensures CountOf(IntText(n), '|') == 0 {
      PrintedHasNo(n, '|');
      CountOfZero(IntText(n), '|');
    }
    CountOfZero(VERSION, '|');
    CountOfField(x, d, '|');
    CountOfField(i, x + "|" + d, '|');
    CountOfField(s.email, i + "|" + (x + "|" + d), '|');
    CountOfField(VERSION, s.email + "|" + (i + "|" + (x + "|" + d)), '|');
  }

  lemma PayloadSplits(s: Session)
    requires '|' !in s.email
    ensures Split(FormatPayload(s), '|') ==
            [VERSION, s.email, IntText(s.issued), IntText(s.expires), IntText(s.idleDeadline)]
  {
    hide IntText;
    var i, x, d := IntText(s.issued), IntText(s.expires), IntText(s.idleDeadline);
    forall n: int ensures '|' !in IntText(n) { PrintedHasNo(n, '|'); }
    SplitWhole(d, '|');
    SplitFirst(x, d, '|');
    SplitFirst(i, x + "|" + d, '|');
    SplitFirst(s.email, i + "|" + (x + "|" + d), '|');
    SplitFirst(VERSION, s.email + "|" + (i + "|" + (x + "|" + d)), '|');
  }

  /** A printed and signed session parses back to itself if and only if its email holds no
      separator; otherwise parsing fails. */
  lemma RoundTripIff(s: Session, mac: Mac)
    requires Dotless(mac) && FitsInt64(s)
    ensures ParsePayload(SignValue(FormatPayload(s), mac), mac) == if '|' in s.email then None else Some(s)
  {
    var value := FormatPayload(s);
    VerifiesIffSigned(SignValue(value, mac), value, mac);
    assert VERSION + "|" <= value;
    SplitCounts(value, '|');
    PayloadCounts(s);
    CountOfZero(s.email, '|');
    if '|' !in s.email {
      PayloadSplits(s);
      ParsesPrinted(s.issued);
      ParsesPrinted(s.expires);
      ParsesPrinted(s.idleDeadline);
    }
  }

  /** Whatever parses was signed: no other string is accepted. */
  lemma OnlySignedParses(signed: string, mac: Mac)
    requires Dotless(mac) && ParsePayload(signed, mac).Some?
    ensures exists value :: signed == SignValue(value, mac)
  {
    var value := VerifySignature(signed, mac).value;
    VerifiesIffSigned(signed, value, mac);
  }

  /** A signed value without the version mark is a plain email, if it is not empty and has no separator,
      with no times; otherwise it does not parse. */
  lemma LegacyParses(value: string, mac: Mac)
    requires Dotless(mac) && !("v2|" <= value)
    ensures ParsePayload(SignValue(value, mac), mac) ==
            if value != "" && '|' !in value then Some(Session(value, 0, 0, 0)) else None
  {
    VerifiesIffSigned(SignValue(value, mac), value, mac);
    assert VERSION + "|" == "v2|";
  }

  /** A number that does not fit reads as the nearest that does, and what is not a number as 0. */
  lemma OtherNumbers(n: int, s: string)
    ensures n > MAX_INT64 ==> ParseInt64(IntText(n)) == MAX_INT64
    ensures n < MIN_INT64 ==> ParseInt64(IntText(n)) == MIN_INT64
    ensures !AllDigits(s) && s != "" && s[0] != '-' && s[0] != '+' ==> ParseInt64(s) == 0
    ensures ParseInt64("") == 0
  {
    if n < MIN_INT64 {
      NatValueOfText(-n);
      assert IntText(n)[1..] == NatText(-n);
    } else if n > MAX_INT64 {
      NatValueOfText(n);
      assert NatText(n)[0] != '-' && NatText(n)[0] != '+';
    }
  }
}
