/** The Argon2id password-hash string of go/crypt/hash.go: how it is printed, split, parsed and
    verified. The key derivation itself is a parameter: any function with the length asked for. */
module HashString {
  import opened Wrappers
  import opened Base64

  // ---------------------------------------------------------------- decimal numbers

  function Digit(d: int): char
    requires 0 <= d < 10
  {
    '0' + d as char
  }

  predicate IsDigit(c: char) {
    '0' <= c <= '9'
  }

  /** `%d` on a number that is not negative. */
  function Decimal(n: nat): string {
    if n < 10 then [Digit(n)] else Decimal(n / 10) + [Digit(n % 10)]
  }

  predicate AllDigits(s: string) {
    forall c :: c in s ==> IsDigit(c)
  }

  function DecimalValue(s: string): nat
    requires AllDigits(s)
  {
    if s == "" then 0
    else
      var n := |s| - 1;
      assert s[n] in s;
      10 * DecimalValue(s[..n]) + (s[n] as int - '0' as int)
  }

  /** strconv.ParseUint(s, 10, bits), with `limit` = 2^bits. */
  function ParseUint(s: string, limit: nat): Option<nat> {
    if s != "" && AllDigits(s) && DecimalValue(s) < limit then Some(DecimalValue(s)) else None
  }

  /** strconv.Atoi: an optional sign, digits, and the int64 range. */
  function Atoi(s: string): Option<int> {
    if s != "" && (s[0] == '-' || s[0] == '+') then
      var magnitude := ParseUint(s[1..], if s[0] == '-' then 0x8000_0000_0000_0001 else 0x8000_0000_0000_0000);
      if magnitude.None? then None
      else if s[0] == '-' then Some(-(magnitude.value as int))
      else magnitude
    else ParseUint(s, 0x8000_0000_0000_0000)
  }

  lemma {:induction false} DecimalParses(n: nat)
    ensures Decimal(n) != "" && AllDigits(Decimal(n))
    ensures DecimalValue(Decimal(n)) == n
  {
    if n >= 10 {
      DecimalParses(n / 10);
      var s := Decimal(n);
      assert s[..|s| - 1] == Decimal(n / 10);
    }
  }

  // ---------------------------------------------------------------- splitting

  function Split(s: string, sep: char): (fields: seq<string>)
    ensures |fields| >= 1
  {
    if s == "" then [""]
    else if s[0] == sep then [""] + Split(s[1..], sep)
    else
      var rest := Split(s[1..], sep);
      [[s[0]] + rest[0]] + rest[1..]
  }

  lemma {:induction false} SplitField(a: string, rest: string, sep: char)
    requires sep !in a
    ensures Split(a, sep) == [a]
    ensures Split(a + [sep] + rest, sep) == [a] + Split(rest, sep)
  {
    if a == "" {
      assert a + [sep] + rest == [sep] + rest;
    } else {
      SplitField(a[1..], rest, sep);
      assert (a + [sep] + rest)[1..] == a[1..] + [sep] + rest;
      assert [a[0]] + a[1..] == a;
    }
  }

  lemma SplitThree(a: string, b: string, c: string, sep: char)
    requires sep !in a && sep !in b && sep !in c
    ensures Split(a + [sep] + (b + [sep] + c), sep) == [a, b, c]
  {
    hide Split;
    SplitField(c, "", sep);
    SplitField(b, c, sep);
    SplitField(a, b + [sep] + c, sep);
  }

  function JoinSix(a: string, b: string, c: string, d: string, e: string, f: string, sep: char): string {
    a + [sep] + (b + [sep] + (c + [sep] + (d + [sep] + (e + [sep] + f))))
  }

  lemma SplitSix(a: string, b: string, c: string, d: string, e: string, f: string, sep: char)
    requires sep !in a && sep !in b && sep !in c && sep !in d && sep !in e && sep !in f
    ensures Split(JoinSix(a, b, c, d, e, f, sep), sep) == [a, b, c, d, e, f]
  {
    hide Split;
    var tail := d + [sep] + (e + [sep] + f);
    SplitThree(d, e, f, sep);
    SplitField(c, tail, sep);
    SplitField(b, c + [sep] + tail, sep);
    SplitField(a, b + [sep] + (c + [sep] + tail), sep);
    assert [a] + ([b] + ([c] + [d, e, f])) == [a, b, c, d, e, f];
  }

  // ---------------------------------------------------------------- raw base64

  function TrimPad(s: string): string {
    if s != "" && s[|s| - 1] == PAD then s[..|s| - 1] else s
  }

  function RawEncode(x: Bytes): string {
    TrimPad(TrimPad(Encoded(x)))
  }

  function PadRaw(s: string): string {
    if |s| % 4 == 2 then s + [PAD, PAD]
    else if |s| % 4 == 3 then s + [PAD]
    else s
  }

  function RawDecode(s: string): Option<Bytes> {
    Decoded(PadRaw(s))
  }

  lemma TrimmedTwice(s: string)
    requires |s| % 4 == 0
    ensures TrimPad(TrimPad(s)) == s[..|s| - Padding(s)]
    ensures PadRaw(s[..|s| - Padding(s)]) == s
  {
    var n := |s|;
    if Padding(s) == 1 {
      var t := s[..n - 1];
      assert TrimPad(s) == t && t[|t| - 1] == s[n - 2];
      assert t + [PAD] == s;
    } else if Padding(s) == 2 {
      var t, u := s[..n - 1], s[..n - 2];
      assert TrimPad(s) == t && t[|t| - 1] == PAD && t[..|t| - 1] == u;
      assert u + [PAD, PAD] == s;
    } else {
      assert TrimPad(s) == s && s[..n] == s;
    }
  }

  /** Stripping the padding and putting it back is the identity on what the encoder prints. */
  lemma StripRepad(x: Bytes)
    ensures PadRaw(RawEncode(x)) == Encoded(x)
    ensures '$' !in RawEncode(x)
  {
    RoundTrip(x);
    AcceptsExactly(Encoded(x));
    assert Base64Value('$').None?;
    hide Encoded, Decoded, Base64Value;
    TrimmedTwice(Encoded(x));
  }

  lemma RawRoundTrip(x: Bytes)
    ensures RawDecode(RawEncode(x)) == Some(x)
  {
    StripRepad(x);
    RoundTrip(x);
  }

  // ---------------------------------------------------------------- the hash string

  const VERSION: nat := 19
  const MEMORY: nat := 64 * 1024
  const TIME: nat := 3
  const PARALLELISM: nat := 4
  const KEY_LEN: nat := 32

  const UINT32: nat := 0x1_0000_0000
  const UINT8: nat := 0x100

  datatype Argon2Hash = Argon2Hash(memory: nat, time: nat, parallelism: nat, salt: Bytes, hash: Bytes)

  datatype HashError =
    | InvalidFormat | BadVersion | UnsupportedVersion(version: int) | BadParameters | BadSalt | BadHash

  /** argon2.IDKey(password, salt, time, memory, parallelism, keyLen). */
  type Kdf = (Bytes, Bytes, nat, nat, nat, nat) -> Bytes

  ghost predicate GivesLengthAsked(kdf: Kdf) {
    forall password, salt, time, memory, parallelism, keyLen ::
      |kdf(password, salt, time, memory, parallelism, keyLen)| == keyLen
  }

  function VersionField(): string {
    "v=" + Decimal(VERSION)
  }

  function ParamsField(h: Argon2Hash): string {
    "m=" + Decimal(h.memory) + ",t=" + Decimal(h.time) + ",p=" + Decimal(h.parallelism)
  }

  /** The format string of HashPassword. */
  function PrintHash(h: Argon2Hash): string {
    JoinSix("", "argon2id", VersionField(), ParamsField(h), RawEncode(h.salt), RawEncode(h.hash), '$')
  }

  function HashPassword(kdf: Kdf, password: Bytes, salt: Bytes): string {
    PrintHash(Argon2Hash(MEMORY, TIME, PARALLELISM, salt,
                         kdf(password, salt, TIME, MEMORY, PARALLELISM, KEY_LEN)))
  }

  function ParsePrefixed(s: string, prefix: string, limit: nat): Option<nat> {
    if prefix <= s then ParseUint(s[|prefix|..], limit) else None
  }

  function ParseVersion(s: string): Option<int> {
    if "v=" <= s then Atoi(s[2..]) else None
  }

  function ParseParams(s: string): Option<(nat, nat, nat)> {
    var parts := Split(s, ',');
    if |parts| != 3 then None
    else
      var memory := ParsePrefixed(parts[0], "m=", UINT32);
      var time := ParsePrefixed(parts[1], "t=", UINT32);
      var parallelism := ParsePrefixed(parts[2], "p=", UINT8);
      if memory.None? || time.None? || parallelism.None? then None
      else Some((memory.value, time.value, parallelism.value))
  }

  function ParseHash(hash: string): Result<Argon2Hash, HashError> {
    var parts := Split(hash, '$');
    if |parts| != 6 then Fail(InvalidFormat)
    else
      var version := ParseVersion(parts[2]);
      if version.None? then Fail(BadVersion)
      else if version.value != VERSION then Fail(UnsupportedVersion(version.value))
      else
        var params := ParseParams(parts[3]);
        if params.None? then Fail(BadParameters)
        else
          var salt := RawDecode(parts[4]);
          if salt.None? then Fail(BadSalt)
          else
            var expected := RawDecode(parts[5]);
            if expected.None? then Fail(BadHash)
            else Ok(Argon2Hash(params.value.0, params.value.1, params.value.2, salt.value, expected.value))
  }

  function VerifyPassword(kdf: Kdf, password: Bytes, hash: string): Result<bool, HashError> {
    match ParseHash(hash)
    case Fail(e) => Fail(e)
    case Ok(h) => Ok(kdf(password, h.salt, h.time, h.memory, h.parallelism, |h.hash|) == h.hash)
  }

  lemma DecimalHasNo(n: nat, c: char)
    requires !IsDigit(c)
    ensures c !in Decimal(n)
  {
    DecimalParses(n);
  }

  lemma ParamsRoundTrip(h: Argon2Hash)
    requires h.memory < 4294967296 && h.time < 4294967296 && h.parallelism < 256
    ensures ParseParams(ParamsField(h)) == Some((h.memory, h.time, h.parallelism))
  {
    var m, t, p := Decimal(h.memory), Decimal(h.time), Decimal(h.parallelism);
    DecimalParses(h.memory);
    DecimalParses(h.time);
    DecimalParses(h.parallelism);
    hide Decimal, DecimalValue, AllDigits;
    ParamsSplit(h);
    assert ("m=" + m)[2..] == m && ("t=" + t)[2..] == t && ("p=" + p)[2..] == p;
  }

  lemma VersionRoundTrip()
    ensures ParseVersion(VersionField()) == Some(VERSION)
    ensures '$' !in VersionField()
  {
    DecimalParses(VERSION);
    DecimalHasNo(VERSION, '$');
    var s := VersionField();
    assert s[2..] == Decimal(VERSION);
    assert IsDigit(s[2]) by { assert Decimal(VERSION)[0] in Decimal(VERSION); }
  }

  lemma PrintedFields(h: Argon2Hash)
    ensures Split(PrintHash(h), '$') ==
      ["", "argon2id", VersionField(), ParamsField(h), RawEncode(h.salt), RawEncode(h.hash)]
  {
    var v, a, s, d := VersionField(), ParamsField(h), RawEncode(h.salt), RawEncode(h.hash);
    assert '$' !in v && '$' !in a && '$' !in s && '$' !in d by {
      VersionRoundTrip();
      ParamsHaveNoDollar(h);
      StripRepad(h.salt);
      StripRepad(h.hash);
    }
    hide VersionField, ParamsField, RawEncode, JoinSix, Split;
    SplitSix("", "argon2id", v, a, s, d, '$');
  }

  lemma ParamsHaveNoDollar(h: Argon2Hash)
    ensures '$' !in ParamsField(h)
  {
    DecimalHasNo(h.memory, '$');
    DecimalHasNo(h.time, '$');
    DecimalHasNo(h.parallelism, '$');
  }

  /** Parsing the printed string recovers every field, whatever the parameters, salt and hash. */
  lemma HashStringRoundTrip(h: Argon2Hash)
    requires h.memory < 4294967296 && h.time < 4294967296 && h.parallelism < 256
    ensures ParseHash(PrintHash(h)) == Ok(h)
  {
    hide VersionField, ParamsField, RawEncode, RawDecode, PrintHash, ParseParams, ParseVersion;
    PrintedFields(h);
    VersionRoundTrip();
    ParamsRoundTrip(h);
    RawRoundTrip(h.salt);
    RawRoundTrip(h.hash);
  }

  /** A password verifies against the string made from another one exactly when the key
      derivation cannot tell them apart under that salt; in particular against its own. */
  lemma VerifiesAgainstHashed(kdf: Kdf, password: Bytes, other: Bytes, salt: Bytes)
    requires GivesLengthAsked(kdf)
    ensures VerifyPassword(kdf, password, HashPassword(kdf, password, salt)) == Ok(true)
    ensures VerifyPassword(kdf, other, HashPassword(kdf, password, salt)) ==
      Ok(kdf(other, salt, TIME, MEMORY, PARALLELISM, KEY_LEN) ==
         kdf(password, salt, TIME, MEMORY, PARALLELISM, KEY_LEN))
  {
    var hash := kdf(password, salt, TIME, MEMORY, PARALLELISM, KEY_LEN);
    HashStringRoundTrip(Argon2Hash(MEMORY, TIME, PARALLELISM, salt, hash));
  }

  /** The code looks at neither of the first two fields, whatever its comment demands: the
      algorithm name may be anything. */
  lemma AlgorithmNameIgnored(a: string, name: string, a': string, name': string, rest: string)
    requires '$' !in a && '$' !in name && '$' !in a' && '$' !in name'
    ensures ParseHash(a + ['$'] + (name + ['$'] + rest)) == ParseHash(a' + ['$'] + (name' + ['$'] + rest))
  {
    hide Split, RawDecode, ParseParams, ParseVersion;
    SplitField(a, name + ['$'] + rest, '$');
    SplitField(name, rest, '$');
    SplitField(a', name' + ['$'] + rest, '$');
    SplitField(name', rest, '$');
  }

  // ---------------------------------------------------------------- which strings are accepted

  /** Digits that spell the number, leading zeros or not. */
  predicate Spells(s: string, n: int) {
    s != "" && AllDigits(s) && DecimalValue(s) == n
  }

  ghost predicate SpellsBelow(s: string, prefix: string, limit: nat) {
    prefix <= s && exists n :: n < limit && Spells(s[|prefix|..], n)
  }

  /** The version may carry a plus sign. */
  predicate SpellsVersion(s: string) {
    "v=" <= s && (Spells(s[2..], 19) || ("v=+" <= s && Spells(s[3..], 19)))
  }

  ghost predicate SpellsParams(s: string) {
    var parts := Split(s, ',');
    && |parts| == 3
    && SpellsBelow(parts[0], "m=", 4294967296) && SpellsBelow(parts[1], "t=", 4294967296)
    && SpellsBelow(parts[2], "p=", 256)
  }

  lemma VersionExactly(s: string)
    ensures ParseVersion(s) == Some(VERSION) <==> SpellsVersion(s)
  {
    hide DecimalValue, AllDigits;
    if "v=" <= s {
      var t := s[2..];
      assert "v=+" <= s <==> t != "" && t[0] == '+' by {
        assert t != "" ==> t[0] == s[2];
      }
      if t != "" && t[0] == '+' {
        assert t[1..] == s[3..];
        SignIsNoDigit(t);
      } else if t != "" && t[0] == '-' {
        SignIsNoDigit(t);
      }
    }
  }

  lemma SignIsNoDigit(t: string)
    requires t != "" && (t[0] == '+' || t[0] == '-')
    ensures !AllDigits(t)
  {
    assert t[0] in t;
  }

  lemma ParamsExactly(s: string)
    ensures ParseParams(s).Some? <==> SpellsParams(s)
  {
    hide DecimalValue, AllDigits, Split;
    var parts := Split(s, ',');
    if |parts| == 3 {
      NumberExactly(parts[0], "m=", UINT32);
      NumberExactly(parts[1], "t=", UINT32);
      NumberExactly(parts[2], "p=", UINT8);
      hide ParsePrefixed, SpellsBelow;
    }
  }

  lemma NumberExactly(s: string, prefix: string, limit: nat)
    ensures ParsePrefixed(s, prefix, limit).Some? <==> SpellsBelow(s, prefix, limit)
    ensures SpellsBelow(s, prefix, limit) ==> Spells(s[|prefix|..], ParsePrefixed(s, prefix, limit).value)
  {
    hide DecimalValue, AllDigits;
    if prefix <= s && s[|prefix|..] != "" && AllDigits(s[|prefix|..]) {
      assert Spells(s[|prefix|..], DecimalValue(s[|prefix|..]));
    }
  }

  /** Accepted are exactly the strings of six fields whose third spells the version, whose fourth spells
      parameters within their widths, and whose last two are Base64, with or without padding. */
  lemma AcceptsHashExactly(s: string)
    ensures ParseHash(s).Ok? <==>
      var f := Split(s, '$');
      |f| == 6 && SpellsVersion(f[2]) && SpellsParams(f[3]) && WellPadded(PadRaw(f[4])) && WellPadded(PadRaw(f[5]))
  {
    hide Split, ParseVersion, ParseParams, SpellsVersion, SpellsParams, Decoded, WellPadded;
    var f := Split(s, '$');
    if |f| == 6 {
      VersionExactly(f[2]);
      ParamsExactly(f[3]);
      AcceptsExactly(PadRaw(f[4]));
      AcceptsExactly(PadRaw(f[5]));
    }
  }

  /** Which refusal means what, in the order of the checks. */
  lemma RefusalsExactly(s: string)
    ensures var f, r := Split(s, '$'), ParseHash(s);
      && (r == Fail(InvalidFormat) <==> |f| != 6)
      && (r.Fail? && (r.error.BadVersion? || r.error.UnsupportedVersion?) <==> |f| == 6 && !SpellsVersion(f[2]))
      && (r == Fail(BadParameters) <==> |f| == 6 && SpellsVersion(f[2]) && !SpellsParams(f[3]))
      && (r == Fail(BadSalt) <==>
            |f| == 6 && SpellsVersion(f[2]) && SpellsParams(f[3]) && !WellPadded(PadRaw(f[4])))
      && (r == Fail(BadHash) <==>
            && |f| == 6 && SpellsVersion(f[2]) && SpellsParams(f[3])
            && WellPadded(PadRaw(f[4])) && !WellPadded(PadRaw(f[5])))
  {
    hide Split, ParseVersion, ParseParams, SpellsVersion, SpellsParams, Decoded, WellPadded;
    var f := Split(s, '$');
    if |f| == 6 {
      VersionExactly(f[2]);
      ParamsExactly(f[3]);
      AcceptsExactly(PadRaw(f[4]));
      AcceptsExactly(PadRaw(f[5]));
    }
  }

  /** The verdict on every accepted string: the derivation with the string's own salt, time, memory and
      parallelism, to the length of its own hash, is compared with that hash. */
  lemma VerdictExactly(kdf: Kdf, password: Bytes, s: string, memory: nat, time: nat, parallelism: nat)
    requires ParseHash(s).Ok?
    requires var parts := Split(Split(s, '$')[3], ',');
      Spells(parts[0][2..], memory) && Spells(parts[1][2..], time) && Spells(parts[2][2..], parallelism)
    ensures var f := Split(s, '$');
      var salt, hash := Decoded(PadRaw(f[4])).value, Decoded(PadRaw(f[5])).value;
      VerifyPassword(kdf, password, s) == Ok(kdf(password, salt, time, memory, parallelism, |hash|) == hash)
  {
    hide Split, Decoded, PadRaw, ParseVersion;
    var parts := Split(Split(s, '$')[3], ',');
    NumberExactly(parts[0], "m=", UINT32);
    NumberExactly(parts[1], "t=", UINT32);
    NumberExactly(parts[2], "p=", UINT8);
    hide DecimalValue, AllDigits;
  }

  lemma DecimalLiterals()
    ensures Decimal(19) == "19" && Decimal(65536) == "65536" && Decimal(3) == "3" && Decimal(4) == "4"
  {
    assert Decimal(65) == "65";
    assert Decimal(655) == "655";
    assert Decimal(6553) == "6553";
  }

  /** The string that is stored for a new password, character by character up to the salt. */
  lemma HashPasswordSpelled(kdf: Kdf, password: Bytes, salt: Bytes)
    ensures HashPassword(kdf, password, salt) ==
      "$argon2id$v=19$m=65536,t=3,p=4$" + RawEncode(salt) + "$" + RawEncode(kdf(password, salt, 3, 65536, 4, 32))
  {
    var h := Argon2Hash(MEMORY, TIME, PARALLELISM, salt, kdf(password, salt, TIME, MEMORY, PARALLELISM, KEY_LEN));
    FieldsSpelled(h);
    hide RawEncode, VersionField, ParamsField;
    Prefixed(RawEncode(h.salt), RawEncode(h.hash));
  }

  lemma FieldsSpelled(h: Argon2Hash)
    ensures VersionField() == "v=19"
    ensures h.memory == 65536 && h.time == 3 && h.parallelism == 4 ==> ParamsField(h) == "m=65536,t=3,p=4"
  {
    DecimalLiterals();
    hide Decimal;
  }

  lemma Prefixed(salt: string, hash: string)
    ensures JoinSix("", "argon2id", "v=19", "m=65536,t=3,p=4", salt, hash, '$') ==
      "$argon2id$v=19$m=65536,t=3,p=4$" + salt + "$" + hash
  {
    assert "" + ['$'] + ("argon2id" + ['$'] + ("v=19" + ['$'] + ("m=65536,t=3,p=4" + ['$']))) ==
      "$argon2id$v=19$m=65536,t=3,p=4$";
  }

  // ---------------------------------------------------------------- which are printed back

  /** Digits without a leading zero. */
  predicate Plain(s: string) {
    s != "" && AllDigits(s) && (|s| == 1 || s[0] != '0')
  }

  lemma {:induction false} DecimalIsPlain(n: nat)
    ensures Plain(Decimal(n)) && (n > 0 ==> Decimal(n)[0] != '0')
  {
    DecimalParses(n);
    if n >= 10 {
      DecimalIsPlain(n / 10);
      assert Decimal(n)[0] == Decimal(n / 10)[0];
    }
  }

  lemma DecimalOf(q: nat, d: nat)
    requires d < 10
    ensures Decimal(d) == [Digit(d)]
    ensures q >= 1 ==> Decimal(10 * q + d) == Decimal(q) + [Digit(d)]
  {
    assert (10 * q + d) / 10 == q && (10 * q + d) % 10 == d;
  }

  lemma ValueOf(s: string)
    requires s != "" && AllDigits(s)
    ensures var n := |s| - 1;
      && AllDigits(s[..n]) && IsDigit(s[n]) && s[n] == Digit(s[n] as int - '0' as int)
      && DecimalValue(s) == 10 * DecimalValue(s[..n]) + (s[n] as int - '0' as int)
  {
    assert s[|s| - 1] in s;
  }

  lemma {:induction false} PlainIsDecimal(s: string)
    requires Plain(s)
    ensures Decimal(DecimalValue(s)) == s
    ensures s[0] != '0' ==> DecimalValue(s) >= 1
  {
    var n := |s| - 1;
    var q, d := s[..n], s[n] as int - '0' as int;
    ValueOf(s);
    assert s == q + [s[n]];
    if n > 0 {
      assert q[0] == s[0];
      hide Decimal, DecimalValue, AllDigits;
      PlainIsDecimal(q);
      DecimalOf(DecimalValue(q), d);
    } else {
      assert q == "" && DecimalValue("") == 0;
      hide Decimal, AllDigits;
      DecimalOf(0, d);
    }
  }

  /** Padding aside, a raw field is printed back exactly when it has none, and no stray bits. */
  lemma RawReprintsExactly(t: string)
    requires RawDecode(t).Some?
    ensures RawEncode(RawDecode(t).value) == t <==> PAD !in t && NoStrayBits(PadRaw(t))
  {
    var p, x := PadRaw(t), RawDecode(t).value;
    hide NoStrayBits;
    ReencodesItself(p);
    StripRepad(x);
    AcceptsExactly(p);
    if RawEncode(x) == t {
      NoPadInRaw(x);
    }
    if PAD !in t && Encoded(x) == p {
      hide Decoded, Encoded, WellPadded;
      assert |t| % 4 != 1;
      assert t != "" ==> t[|t| - 1] in t;
      assert Padding(p) == |p| - |t|;
      TrimmedTwice(p);
      assert p[..|t|] == t;
    }
  }

  lemma NoPadInRaw(x: Bytes)
    ensures PAD !in RawEncode(x)
  {
    RoundTrip(x);
    AcceptsExactly(Encoded(x));
    PadValue();
    hide Encoded, Decoded, Base64Value;
    TrimmedTwice(Encoded(x));
  }

  function Joined(fields: seq<string>, sep: char): string
    requires fields != []
  {
    if |fields| == 1 then fields[0] else fields[0] + [sep] + Joined(fields[1..], sep)
  }

  lemma {:induction false} JoinedSplit(s: string, sep: char)
    ensures Joined(Split(s, sep), sep) == s
  {
    if s != "" {
      var rest := Split(s[1..], sep);
      JoinedSplit(s[1..], sep);
      assert s == [s[0]] + s[1..];
      if s[0] == sep {
        assert Split(s, sep)[1..] == rest;
      } else {
        assert Split(s, sep)[1..] == rest[1..];
      }
    }
  }

  lemma JoinedSix(f: seq<string>, sep: char)
    requires |f| == 6
    ensures Joined(f, sep) == JoinSix(f[0], f[1], f[2], f[3], f[4], f[5], sep)
  {
    var f1, f2, f3, f4, f5 := f[1..], f[2..], f[3..], f[4..], f[5..];
    assert f1[1..] == f2 && f2[1..] == f3 && f3[1..] == f4 && f4[1..] == f5;
    assert Joined(f5, sep) == f[5];
    assert Joined(f4, sep) == f[4] + [sep] + f[5];
    assert Joined(f3, sep) == f[3] + [sep] + Joined(f4, sep);
    assert Joined(f2, sep) == f[2] + [sep] + Joined(f3, sep);
    assert Joined(f1, sep) == f[1] + [sep] + Joined(f2, sep);
  }

  lemma JoinedThree(f: seq<string>, sep: char)
    requires |f| == 3
    ensures Joined(f, sep) == f[0] + [sep] + (f[1] + [sep] + f[2])
  {
    assert f[1..][1..] == f[2..];
    assert Joined(f[2..], sep) == f[2];
    assert Joined(f[1..], sep) == f[1] + [sep] + f[2];
  }

  predicate PlainParams(s: string) {
    var parts := Split(s, ',');
    && |parts| == 3 && |parts[0]| >= 2 && |parts[1]| >= 2 && |parts[2]| >= 2
    && Plain(parts[0][2..]) && Plain(parts[1][2..]) && Plain(parts[2][2..])
  }

  lemma ParamsReprintExactly(s: string, h: Argon2Hash)
    requires ParseParams(s) == Some((h.memory, h.time, h.parallelism))
    ensures ParamsField(h) == s <==> PlainParams(s)
  {
    var parts := Split(s, ',');
    JoinedSplit(s, ',');
    JoinedThree(parts, ',');
    hide Split, Joined, Plain, Decimal;
    PrefixedParts(parts[0], "m=", UINT32, h.memory);
    PrefixedParts(parts[1], "t=", UINT32, h.time);
    PrefixedParts(parts[2], "p=", UINT8, h.parallelism);
    hide ParsePrefixed;
    ParamsSplit(h);
    ParamsJoined(h);
    hide ParamsField;
  }

  lemma ParamsJoined(h: Argon2Hash)
    ensures ParamsField(h) ==
      ("m=" + Decimal(h.memory)) + "," + (("t=" + Decimal(h.time)) + "," + ("p=" + Decimal(h.parallelism)))
  {
    hide Decimal;
  }

  lemma PrefixedParts(s: string, prefix: string, limit: nat, n: nat)
    requires ParsePrefixed(s, prefix, limit) == Some(n)
    ensures prefix <= s && |s| >= |prefix|
    ensures s == prefix + Decimal(n) <==> Plain(s[|prefix|..])
  {
    var t := s[|prefix|..];
    assert s == prefix + t;
    DecimalIsPlain(n);
    if Plain(t) {
      PlainIsDecimal(t);
    }
    assert s == prefix + Decimal(n) ==> t == Decimal(n);
  }

  lemma ParamsSplit(h: Argon2Hash)
    ensures Split(ParamsField(h), ',') ==
      ["m=" + Decimal(h.memory), "t=" + Decimal(h.time), "p=" + Decimal(h.parallelism)]
  {
    var m, t, p := Decimal(h.memory), Decimal(h.time), Decimal(h.parallelism);
    DecimalHasNo(h.memory, ',');
    DecimalHasNo(h.time, ',');
    DecimalHasNo(h.parallelism, ',');
    hide Decimal;
    SplitThree("m=" + m, "t=" + t, "p=" + p, ',');
    assert ParamsField(h) == ("m=" + m) + "," + (("t=" + t) + "," + ("p=" + p));
  }

  /** Of the accepted strings, printing gives back exactly those with the two first fields and the
      version as printed, no leading zeros, no padding, and no stray Base64 bits. */
  lemma ReprintsExactly(s: string)
    requires ParseHash(s).Ok?
    ensures PrintHash(ParseHash(s).value) == s <==>
      var f := Split(s, '$');
      && f[0] == "" && f[1] == "argon2id" && f[2] == VersionField() && PlainParams(f[3])
      && PAD !in f[4] && NoStrayBits(PadRaw(f[4])) && PAD !in f[5] && NoStrayBits(PadRaw(f[5]))
  {
    var f, h := Split(s, '$'), ParseHash(s).value;
    JoinedSplit(s, '$');
    JoinedSix(f, '$');
    PrintedFields(h);
    hide Split, Joined, RawEncode, RawDecode, VersionField, ParamsField, ParseParams, ParseVersion, PlainParams,
         NoStrayBits, PadRaw;
    ParamsReprintExactly(f[3], h);
    RawReprintsExactly(f[4]);
    RawReprintsExactly(f[5]);
  }

  const ALGORITHM_PREFIX: string := "$argon2id$"

  /** What the authenticator looks for before it verifies a stored hash. */
  lemma HashedHasPrefix(kdf: Kdf, password: Bytes, salt: Bytes)
    ensures ALGORITHM_PREFIX <= HashPassword(kdf, password, salt)
  {
    var h := Argon2Hash(MEMORY, TIME, PARALLELISM, salt, kdf(password, salt, TIME, MEMORY, PARALLELISM, KEY_LEN));
    hide VersionField, ParamsField, RawEncode;
    var rest := VersionField() + ['$'] + (ParamsField(h) + ['$'] + (RawEncode(h.salt) + ['$'] + RawEncode(h.hash)));
    assert PrintHash(h) == ("" + ['$']) + ("argon2id" + ['$'] + rest);
    assert ALGORITHM_PREFIX == ("" + ['$']) + ("argon2id" + ['$']);
  }
}
