/** The security hash the advanced-subscription plugin puts on its action
    links (`generateHash`) and verifies when a link is followed
    (`checkHash`). The hash is sha1 of the PHP serialization of six
    normalised request fields, followed by sha1 of the secret key. sha1 is
    a parameter about which nothing is assumed. */
module RequestHash {
  import opened Php

  /** A request's parameters, as PHP receives them (all text). */
  type Params = map<string, string>

  /** `$data[key]` read as a string: an unset key is null, i.e. "". */
  function Param(d: Params, key: string): string {
    if key in d then d[key] else ""
  }

  /** The six keys the hash covers. */
  const HashedKeys: set<string> := {"action", "sessionId", "currentUserId", "studentUserId", "queueId", "newStatus"}

  /** `$dataPrepared` before serialization: `strval` of the action and
      `intval` of the five ids. */
  datatype Prepared = Prepared(action: string, sessionId: int, currentUserId: int,
                               studentUserId: int, queueId: int, newStatus: int)

  function Prepare(d: Params): (p: Prepared)
    ensures p.action == (if "action" in d then d["action"] else "")
    ensures p.sessionId == (if "sessionId" in d then IntVal(d["sessionId"]) else 0)
    ensures p.currentUserId == (if "currentUserId" in d then IntVal(d["currentUserId"]) else 0)
    ensures p.studentUserId == (if "studentUserId" in d then IntVal(d["studentUserId"]) else 0)
    ensures p.queueId == (if "queueId" in d then IntVal(d["queueId"]) else 0)
    ensures p.newStatus == (if "newStatus" in d then IntVal(d["newStatus"]) else 0)
  {
    Prepared(Param(d, "action"), IntVal(Param(d, "sessionId")), IntVal(Param(d, "currentUserId")),
             IntVal(Param(d, "studentUserId")), IntVal(Param(d, "queueId")), IntVal(Param(d, "newStatus")))
  }

  // ---------------------------------------------------------------------
  // PHP serialize() of the prepared array
  // ---------------------------------------------------------------------

  /** `serialize` of a string: `s:<length>:"<text>";`. */
  function SerializedString(v: string): string {
    "s:" + IntToString(|v|) + ":\"" + v + "\";"
  }

  /** `serialize` of an integer: `i:<decimal>;`. */
  function SerializedInt(n: int): string {
    "i:" + IntToString(n) + ";"
  }

  /** The integer entries of the array, in insertion order. */
  const IdKeys: seq<string> := ["sessionId", "currentUserId", "studentUserId", "queueId", "newStatus"]

  function Ids(p: Prepared): seq<int> {
    [p.sessionId, p.currentUserId, p.studentUserId, p.queueId, p.newStatus]
  }

  /** Key/value pairs with integer values, each key and value serialized in turn. */
  function SerializedIntEntries(keys: seq<string>, values: seq<int>): string
    requires |keys| == |values|
  {
    if |keys| == 0 then ""
    else SerializedString(keys[0]) + (SerializedInt(values[0]) + SerializedIntEntries(keys[1..], values[1..]))
  }

  /** `serialize` of the six-entry array: `a:6:{` then each key and value,
      then `}`. */
  function Serialize(p: Prepared): (s: string)
    ensures StartsWith(s, "a:6:{") && s[|s| - 1] == '}'
  {
    "a:6:{" + (SerializedString("action") + (SerializedString(p.action)
    + (SerializedIntEntries(IdKeys, Ids(p)) + "}")))
  }

  // ---------------------------------------------------------------------
  // Reading a serialization back
  // ---------------------------------------------------------------------

  function Expect(s: string, lit: string): (r: Option<string>)
    ensures r.Some? ==> s == lit + r.value
  {
    if StartsWith(s, lit) then
      assert s == s[..|lit|] + s[|lit|..];
      Some(s[|lit|..])
    else None
  }

  /** The text before the first `c`, and the text after it. */
  function ReadUntil(s: string, c: char): (r: Option<(string, string)>)
    ensures r.Some? ==> c !in r.value.0 && s == r.value.0 + [c] + r.value.1
  {
    if |s| == 0 then None
    else if s[0] == c then Some(("", s[1..]))
    else
      match ReadUntil(s[1..], c)
      case None => None
      case Some((before, after)) => Some(([s[0]] + before, after))
  }

  function ReadInt(s: string): Option<(int, string)> {
    var rest :- Expect(s, "i:");
    var digits :- ReadUntil(rest, ';');
    Some((IntVal(digits.0), digits.1))
  }

  function ReadString(s: string): Option<(string, string)> {
    var r1 :- Expect(s, "s:");
    var len :- ReadUntil(r1, ':');
    var n := IntVal(len.0);
    var r2 :- Expect(len.1, "\"");
    if n < 0 || |r2| < n then None
    else
      var r3 :- Expect(r2[n..], "\";");
      Some((r2[..n], r3))
  }

  function ReadKey(s: string, key: string): Option<string> {
    var k :- ReadString(s);
    if k.0 == key then Some(k.1) else None
  }

  /** A string key followed by an integer value. */
  function ReadIntField(s: string, key: string): Option<(int, string)> {
    var r :- ReadKey(s, key);
    ReadInt(r)
  }

  /** Integer entries under the given keys, in order. */
  function ReadIntEntries(s: string, keys: seq<string>): Option<(seq<int>, string)>
    decreases |keys|
  {
    if |keys| == 0 then Some(([], s))
    else
      var first :- ReadIntField(s, keys[0]);
      var rest :- ReadIntEntries(first.1, keys[1..]);
      Some(([first.0] + rest.0, rest.1))
  }

  /** `unserialize` for the shape `Serialize` produces, reading a prefix of
      `s` and returning what follows it. */
  function Unserialize(s: string): Option<(Prepared, string)> {
    var r0 :- Expect(s, "a:6:{");
    var r1 :- ReadKey(r0, "action");
    var action :- ReadString(r1);
    var ids :- ReadIntEntries(action.1, IdKeys);
    var rest :- Expect(ids.1, "}");
    if |ids.0| != 5 then None
    else Some((Prepared(action.0, ids.0[0], ids.0[1], ids.0[2], ids.0[3], ids.0[4]), rest))
  }

  lemma ExpectPrefix(lit: string, t: string)
    ensures Expect(lit + t, lit) == Some(t)
  {
    assert (lit + t)[..|lit|] == lit;
    assert (lit + t)[|lit|..] == t;
  }

  lemma {:induction false} ReadUntilPrefix(a: string, c: char, t: string)
    requires c !in a
    ensures ReadUntil(a + [c] + t, c) == Some((a, t))
    decreases |a|
  {
    var s := a + [c] + t;
    if |a| == 0 {
      assert s[1..] == t;
    } else {
      assert s[1..] == a[1..] + [c] + t;
      ReadUntilPrefix(a[1..], c, t);
      assert [a[0]] + a[1..] == a;
    }
  }

  lemma ReadIntRoundTrip(n: int, t: string)
    ensures ReadInt(SerializedInt(n) + t) == Some((n, t))
  {
    var digits := IntToString(n);
    assert SerializedInt(n) + t == "i:" + (digits + [';'] + t);
    ExpectPrefix("i:", digits + [';'] + t);
    IntToStringChars(n, ';');
    ReadUntilPrefix(digits, ';', t);
    IntValOfIntToString(n);
  }

  /** After the length and its colon: the quoted text of that length. */
  lemma ReadQuotedRoundTrip(v: string, t: string)
    ensures var r2 := v + "\";" + t;
            && Expect("\"" + r2, "\"") == Some(r2)
            && |r2| >= |v| && r2[..|v|] == v
            && Expect(r2[|v|..], "\";") == Some(t)
  {
    var r2 := v + "\";" + t;
    ExpectPrefix("\"", r2);
    assert r2[..|v|] == v;
    assert r2[|v|..] == "\";" + t;
    ExpectPrefix("\";", t);
  }

  lemma ReadLengthRoundTrip(v: string, rest: string)
    ensures var len := IntToString(|v|);
            && Expect("s:" + (len + [':'] + rest), "s:") == Some(len + [':'] + rest)
            && ReadUntil(len + [':'] + rest, ':') == Some((len, rest))
            && IntVal(len) == |v|
  {
    var len := IntToString(|v|);
    ExpectPrefix("s:", len + [':'] + rest);
    IntToStringChars(|v|, ':');
    ReadUntilPrefix(len, ':', rest);
    IntValOfIntToString(|v|);
  }

  /** The serialized string regrouped as the reader consumes it. */
  lemma SerializedStringShape(v: string, t: string)
    ensures SerializedString(v) + t == "s:" + (IntToString(|v|) + [':'] + ("\"" + (v + "\";" + t)))
  {
  }

  lemma ReadStringRoundTrip(v: string, t: string)
    ensures ReadString(SerializedString(v) + t) == Some((v, t))
  {
    var r2 := v + "\";" + t;
    SerializedStringShape(v, t);
    ReadLengthRoundTrip(v, "\"" + r2);
    ReadQuotedRoundTrip(v, t);
  }

  lemma ReadKeyRoundTrip(key: string, t: string)
    ensures ReadKey(SerializedString(key) + t, key) == Some(t)
  {
    ReadStringRoundTrip(key, t);
  }

  lemma ReadIntFieldRoundTrip(key: string, n: int, t: string)
    ensures ReadIntField(SerializedString(key) + (SerializedInt(n) + t), key) == Some((n, t))
  {
    ReadKeyRoundTrip(key, SerializedInt(n) + t);
    ReadIntRoundTrip(n, t);
  }

  /** One step of `ReadIntEntries`: the first field, then the others. */
  lemma ReadIntEntriesStep(s: string, keys: seq<string>, n: int, s1: string, ns: seq<int>, t: string)
    requires |keys| > 0
    requires ReadIntField(s, keys[0]) == Some((n, s1))
    requires ReadIntEntries(s1, keys[1..]) == Some((ns, t))
    ensures ReadIntEntries(s, keys) == Some(([n] + ns, t))
  {
  }

  lemma HeadTail(values: seq<int>)
    requires |values| > 0
    ensures [values[0]] + values[1..] == values
  {
  }

  lemma SerializedIntEntriesCons(keys: seq<string>, values: seq<int>, t: string)
    requires |keys| == |values| > 0
    ensures SerializedIntEntries(keys, values) + t
         == SerializedString(keys[0]) + (SerializedInt(values[0]) + (SerializedIntEntries(keys[1..], values[1..]) + t))
  {
  }

  lemma {:induction false} ReadIntEntriesRoundTrip(keys: seq<string>, values: seq<int>, t: string)
    requires |keys| == |values|
    ensures ReadIntEntries(SerializedIntEntries(keys, values) + t, keys) == Some((values, t))
    decreases |keys|
  {
    if |keys| > 0 {
      var rest := SerializedIntEntries(keys[1..], values[1..]) + t;
      SerializedIntEntriesCons(keys, values, t);
      ReadIntFieldRoundTrip(keys[0], values[0], rest);
      ReadIntEntriesRoundTrip(keys[1..], values[1..], t);
      ReadIntEntriesStep(SerializedIntEntries(keys, values) + t, keys, values[0], rest, values[1..], t);
      HeadTail(values);
    } else {
      assert SerializedIntEntries(keys, values) + t == t;
      assert values == [];
    }
  }

  /** The serialization regrouped as the reader consumes it. */
  lemma SerializeShape(p: Prepared, t: string)
    ensures Serialize(p) + t == "a:6:{" + (SerializedString("action") + (SerializedString(p.action)
            + (SerializedIntEntries(IdKeys, Ids(p)) + ("}" + t))))
  {
    RegroupFive("a:6:{", SerializedString("action"), SerializedString(p.action),
                SerializedIntEntries(IdKeys, Ids(p)), "}", t);
  }

  lemma RegroupFive(a: string, b: string, c: string, e: string, f: string, t: string)
    ensures (a + (b + (c + (e + f)))) + t == a + (b + (c + (e + (f + t))))
  {
  }

  /** Round trip: the serialization reads back as the prepared data, whatever
      text follows it. */
  lemma UnserializeSerialize(p: Prepared, t: string)
    ensures Unserialize(Serialize(p) + t) == Some((p, t))
  {
    var entries := SerializedIntEntries(IdKeys, Ids(p));
    var s1 := SerializedString(p.action) + (entries + ("}" + t));
    SerializeShape(p, t);
    ExpectPrefix("a:6:{", SerializedString("action") + s1);
    ReadKeyRoundTrip("action", s1);
    ReadStringRoundTrip(p.action, entries + ("}" + t));
    ReadIntEntriesRoundTrip(IdKeys, Ids(p), "}" + t);
    ExpectPrefix("}", t);
  }

  // ---------------------------------------------------------------------
  // generateHash / checkHash
  // ---------------------------------------------------------------------

  /** The text sha1 is applied to: the serialization, then the hashed key. */
  function HashInput(d: Params, secretKey: string, sha1: string -> string): string {
    Serialize(Prepare(d)) + sha1(secretKey)
  }

  /** `generateHash`: sha1 of a text that reads back as the prepared
      fields followed by sha1 of the secret key. */
  function GenerateHash(d: Params, secretKey: string, sha1: string -> string): (h: string)
    ensures exists input :: h == sha1(input) && Unserialize(input) == Some((Prepare(d), sha1(secretKey)))
  {
    UnserializeSerialize(Prepare(d), sha1(secretKey));
    sha1(HashInput(d, secretKey, sha1))
  }

  /** `checkHash` with an exact comparison of the two hash strings. */
  function CheckHash(d: Params, hash: string, secretKey: string, sha1: string -> string): (ok: bool)
    ensures ok <==> hash == GenerateHash(d, secretKey, sha1)
  {
    GenerateHash(d, secretKey, sha1) == hash
  }

  /** The hash input names the six prepared fields and the hashed key
      unambiguously: two requests that differ in any normalised field give
      sha1 different texts. */
  lemma HashInputInjective(d1: Params, d2: Params, key1: string, key2: string, sha1: string -> string)
    requires HashInput(d1, key1, sha1) == HashInput(d2, key2, sha1)
    ensures Prepare(d1) == Prepare(d2)
    ensures sha1(key1) == sha1(key2)
  {
    UnserializeSerialize(Prepare(d1), sha1(key1));
    UnserializeSerialize(Prepare(d2), sha1(key2));
  }

  /** The hash sees only the six keys, through `strval`/`intval`: requests
      that agree there (for example on `sessionId` "12" and "012") have the
      same hash, whatever else they carry, such as `profile_completed`. */
  /** The converse of `HashOnlyReadsHashedKeys`: equal hash inputs mean the
      two requests agree on `strval(action)` and on the `intval` of each of
      the five ids. */
  lemma HashInputDeterminesHashedKeys(d1: Params, d2: Params, key1: string, key2: string, sha1: string -> string)
    requires HashInput(d1, key1, sha1) == HashInput(d2, key2, sha1)
    ensures Param(d1, "action") == Param(d2, "action")
    ensures IntVal(Param(d1, "sessionId")) == IntVal(Param(d2, "sessionId"))
    ensures IntVal(Param(d1, "currentUserId")) == IntVal(Param(d2, "currentUserId"))
    ensures IntVal(Param(d1, "studentUserId")) == IntVal(Param(d2, "studentUserId"))
    ensures IntVal(Param(d1, "queueId")) == IntVal(Param(d2, "queueId"))
    ensures IntVal(Param(d1, "newStatus")) == IntVal(Param(d2, "newStatus"))
  {
    HashInputInjective(d1, d2, key1, key2, sha1);
    PreparedAgree(d1, d2);
  }

  lemma PreparedAgree(d1: Params, d2: Params)
    requires Prepare(d1) == Prepare(d2)
    ensures Param(d1, "action") == Param(d2, "action")
    ensures IntVal(Param(d1, "sessionId")) == IntVal(Param(d2, "sessionId"))
    ensures IntVal(Param(d1, "currentUserId")) == IntVal(Param(d2, "currentUserId"))
    ensures IntVal(Param(d1, "studentUserId")) == IntVal(Param(d2, "studentUserId"))
    ensures IntVal(Param(d1, "queueId")) == IntVal(Param(d2, "queueId"))
    ensures IntVal(Param(d1, "newStatus")) == IntVal(Param(d2, "newStatus"))
  {
  }

  lemma HashOnlyReadsHashedKeys(d1: Params, d2: Params, secretKey: string, sha1: string -> string)
    requires Param(d1, "action") == Param(d2, "action")
    requires forall k :: k in HashedKeys && k != "action" ==> IntVal(Param(d1, k)) == IntVal(Param(d2, k))
    ensures GenerateHash(d1, secretKey, sha1) == GenerateHash(d2, secretKey, sha1)
  {
    assert Prepare(d1) == Prepare(d2);
  }

  /** Replacing `sessionId` by another text with the same `intval` leaves
      the prepared data unchanged. */
  lemma PrepareIgnoresSessionRendering(d: Params, v: string)
    requires IntVal(v) == IntVal(Param(d, "sessionId"))
    ensures Prepare(d["sessionId" := v]) == Prepare(d)
  {
    var r := d["sessionId" := v];
    assert Param(r, "action") == Param(d, "action");
    assert Param(r, "currentUserId") == Param(d, "currentUserId");
    assert Param(r, "studentUserId") == Param(d, "studentUserId");
    assert Param(r, "queueId") == Param(d, "queueId");
    assert Param(r, "newStatus") == Param(d, "newStatus");
  }

  /** A link built with `generateHash` always passes `checkHash`, also after
      the link's ids are re-rendered from their integer values. */
  lemma GeneratedHashChecks(d: Params, secretKey: string, sha1: string -> string)
    ensures CheckHash(d, GenerateHash(d, secretKey, sha1), secretKey, sha1)
    ensures var rendered := d["sessionId" := IntToString(IntVal(Param(d, "sessionId")))];
            CheckHash(rendered, GenerateHash(d, secretKey, sha1), secretKey, sha1)
  {
    var sessionId := IntVal(Param(d, "sessionId"));
    IntValOfIntToString(sessionId);
    PrepareIgnoresSessionRendering(d, IntToString(sessionId));
  }

  // ---------------------------------------------------------------------
  // The comparison as written: PHP's loose ==
  // ---------------------------------------------------------------------

  predicate SignedDigits(u: string) {
    (|u| > 0 && AllDigits(u))
    || (|u| > 1 && (u[0] == '+' || u[0] == '-') && AllDigits(u[1..]))
  }

  /** An optional exponent part: nothing, or `e`/`E`, an optional sign and
      at least one digit. */
  predicate ExponentPart(x: string) {
    |x| == 0 || ((x[0] == 'e' || x[0] == 'E') && SignedDigits(x[1..]))
  }

  /** A mantissa whose value is zero: zeros with at most one decimal point
      and at least one zero ("0", "000", "0.", ".0", "00.000"). */
  predicate ZeroMantissa(m: string) {
    && Count(m, '.') <= 1
    && Count(m, '.') < |m|
    && forall i :: 0 <= i < |m| ==> m[i] == '0' || m[i] == '.'
  }

  /** Where the exponent begins: the first `e` or `E`, or the end. */
  function ExponentStart(b: string): (i: nat)
    ensures i <= |b|
    ensures i < |b| ==> b[i] == 'e' || b[i] == 'E'
    ensures forall j :: 0 <= j < i ==> b[j] != 'e' && b[j] != 'E'
  {
    if |b| == 0 || b[0] == 'e' || b[0] == 'E' then 0 else 1 + ExponentStart(b[1..])
  }

  /** Drops one leading sign character. */
  function Unsigned(t: string): (u: string)
    ensures u == t || (|t| > 0 && (t[0] == '+' || t[0] == '-') && u == t[1..])
  {
    if |t| > 0 && (t[0] == '+' || t[0] == '-') then t[1..] else t
  }

  /** A numeric string, in PHP's sense, whose value is zero: leading white
      space, an optional sign, a zero mantissa and an optional exponent
      ("0", "-0", " +0.0", ".0", "0.", "0e5", "0E-12", ...). */
  predicate ZeroNumeric(s: string) {
    var b := Unsigned(TrimLeadingSpace(s));
    var i := ExponentStart(b);
    ZeroMantissa(b[..i]) && ExponentPart(b[i..])
  }

  /** PHP's `==` on two strings, as far as this model needs it: equal
      strings, or two numeric strings that both denote zero. Two numeric
      strings with equal non-zero values are not covered. */
  predicate LooseEquals(a: string, b: string): (r: bool)
    ensures a == b ==> r
    ensures r && a != b ==> ZeroNumeric(a) && ZeroNumeric(b)
    ensures ZeroNumeric(a) && ZeroNumeric(b) ==> r
  {
    a == b || (ZeroNumeric(a) && ZeroNumeric(b))
  }

  /** `checkHash` as written, with `==`. */
  function CheckHashAsWritten(d: Params, hash: string, secretKey: string, sha1: string -> string): (ok: bool)
    ensures CheckHash(d, hash, secretKey, sha1) ==> ok
    ensures ok && !CheckHash(d, hash, secretKey, sha1) ==>
              ZeroNumeric(hash) && ZeroNumeric(GenerateHash(d, secretKey, sha1))
  {
    LooseEquals(GenerateHash(d, secretKey, sha1), hash)
  }

  /** Whenever the real digest of a request has the form `0e<digits>`, the
      link hash "0" passes the check as written, although it is not the
      request's hash; the exact comparison rejects it. */
  lemma MagicHashAccepted(d: Params, secretKey: string, sha1: string -> string, digits: string)
    requires |digits| > 0 && AllDigits(digits)
    requires GenerateHash(d, secretKey, sha1) == "0e" + digits
    ensures CheckHashAsWritten(d, "0", secretKey, sha1)
    ensures !CheckHash(d, "0", secretKey, sha1)
  {
    SingleZero();
    assert |"0e" + digits| >= 3;
    ZeroHashAccepted(d, secretKey, sha1, digits, "0");
  }

  /** The premise can be met: with a sha1 whose output is `0e<digits>`,
      every request accepts the hash "0" under the check as written. */
  lemma MagicHashWitness(d: Params, secretKey: string, digits: string)
    requires |digits| > 0 && AllDigits(digits)
    ensures var sha1 := (x: string) => "0e" + digits;
            && GenerateHash(d, secretKey, sha1) == "0e" + digits
            && CheckHashAsWritten(d, "0", secretKey, sha1)
            && !CheckHash(d, "0", secretKey, sha1)
  {
    var sha1 := (x: string) => "0e" + digits;
    assert GenerateHash(d, secretKey, sha1) == "0e" + digits;
    MagicHashAccepted(d, secretKey, sha1, digits);
  }

  /** Under such a digest every other spelling of zero passes as the hash. */
  lemma ZeroHashAccepted(d: Params, secretKey: string, sha1: string -> string, digits: string, hash: string)
    requires |digits| > 0 && AllDigits(digits)
    requires GenerateHash(d, secretKey, sha1) == "0e" + digits
    requires ZeroNumeric(hash) && hash != "0e" + digits
    ensures CheckHashAsWritten(d, hash, secretKey, sha1)
    ensures !CheckHash(d, hash, secretKey, sha1)
  {
    ExponentDigestIsZero(digits);
  }

  /** `0e<digits>` is a numeric string of value zero. */
  lemma ExponentDigestIsZero(digits: string)
    requires |digits| > 0 && AllDigits(digits)
    ensures ZeroNumeric("0e" + digits)
  {
    ZeroMantissaOne();
    var x := "e" + digits;
    DigitExponent(digits);
    ZeroNumericOf("", "", "0", x);
    ConcatEmptyFront("0", x);
    SplitZeroE(digits);
  }

  lemma DigitExponent(digits: string)
    requires |digits| > 0 && AllDigits(digits)
    ensures ExponentPart("e" + digits)
  {
    assert ("e" + digits)[1..] == digits;
  }

  lemma SplitZeroE(digits: string)
    ensures "0" + ("e" + digits) == "0e" + digits
  {
  }

  lemma ZeroMantissaOne()
    ensures ZeroMantissa("0")
  {
    assert Count("0"[1..], '.') == 0;
  }

  lemma ConcatEmptyFront(m: string, x: string)
    ensures "" + "" + m + x == m + x
  {
  }

  /** "0" is a numeric string of value zero. */
  lemma SingleZero()
    ensures ZeroNumeric("0")
  {
    ZeroMantissaOne();
    ZeroNumericOf("", "", "0", "");
    ConcatEmptyFront("0", "");
    assert "0" + "" == "0";
  }

  lemma {:induction false} TrimSpaces(w: string, t: string)
    requires forall i :: 0 <= i < |w| ==> IsSpace(w[i])
    requires |t| > 0 && !IsSpace(t[0])
    ensures TrimLeadingSpace(w + t) == t
    decreases |w|
  {
    if |w| == 0 {
      assert w + t == t;
    } else {
      assert (w + t)[1..] == w[1..] + t;
      TrimSpaces(w[1..], t);
    }
  }

  lemma {:induction false} ExponentStartOf(m: string, x: string)
    requires forall i :: 0 <= i < |m| ==> m[i] == '0' || m[i] == '.'
    requires ExponentPart(x)
    ensures ExponentStart(m + x) == |m|
    decreases |m|
  {
    if |m| == 0 {
      assert m + x == x;
    } else {
      assert (m + x)[1..] == m[1..] + x;
      ExponentStartOf(m[1..], x);
    }
  }

  /** A numeric zero is decided on the text after white space and sign. */
  lemma ZeroNumericAfter(s: string, b: string, m: string, x: string)
    requires Unsigned(TrimLeadingSpace(s)) == b && b == m + x
    requires ZeroMantissa(m) && ExponentStart(b) == |m| && ExponentPart(x)
    ensures ZeroNumeric(s)
  {
    assert b[..|m|] == m;
    assert b[|m|..] == x;
  }

  lemma SignedMantissa(sign: string, m: string, x: string)
    requires sign == "" || sign == "+" || sign == "-"
    requires ZeroMantissa(m)
    ensures |sign + m + x| > 0 && !IsSpace((sign + m + x)[0])
    ensures Unsigned(sign + m + x) == m + x
  {
    var t := sign + m + x;
    assert |m| > 0;
    assert t[0] == if sign == "" then m[0] else sign[0];
    if sign != "" {
      assert t[1..] == m + x;
    }
  }

  lemma ConcatFour(a: string, b: string, c: string, d: string)
    ensures a + b + c + d == a + (b + c + d)
  {
  }

  /** Every string built by the grammar is a numeric zero: white space, an
      optional sign, a zero mantissa, an optional exponent. */
  lemma ZeroNumericOf(w: string, sign: string, m: string, x: string)
    requires forall i :: 0 <= i < |w| ==> IsSpace(w[i])
    requires sign == "" || sign == "+" || sign == "-"
    requires ZeroMantissa(m) && ExponentPart(x)
    ensures ZeroNumeric(w + sign + m + x)
  {
    var t := sign + m + x;
    SignedMantissa(sign, m, x);
    TrimSpaces(w, t);
    ExponentStartOf(m, x);
    ZeroNumericAfter(w + t, m + x, m, x);
    ConcatFour(w, sign, m, x);
  }

  lemma PointedZeroMantissa(p: string, q: string)
    requires forall i :: 0 <= i < |p| ==> p[i] == '0'
    requires forall i :: 0 <= i < |q| ==> q[i] == '0'
    requires |p| + |q| > 0
    ensures ZeroMantissa(p + "." + q)
  {
    CountAbsent(p, '.');
    CountAbsent(q, '.');
    CountAppend(p, ".", '.');
    CountAppend(p + ".", q, '.');
    assert Count(".", '.') == 1 by { assert "."[1..] == ""; }
    var m := p + "." + q;
    forall i | 0 <= i < |m| ensures m[i] == '0' || m[i] == '.' {
      if i < |p| { assert m[i] == p[i]; } else if i > |p| { assert m[i] == q[i - |p| - 1]; }
    }
  }

  /** Zeros around a decimal point, on either side or both ("0.0", ".0",
      "0.", "00.000"), with an optional sign, are numeric zero. */
  lemma PointedZero(sign: string, p: string, q: string)
    requires sign == "" || sign == "+" || sign == "-"
    requires forall i :: 0 <= i < |p| ==> p[i] == '0'
    requires forall i :: 0 <= i < |q| ==> q[i] == '0'
    requires |p| + |q| > 0
    ensures ZeroNumeric(sign + (p + "." + q))
  {
    PointedZeroMantissa(p, q);
    ZeroNumericOf("", sign, p + "." + q, "");
    EmptyEnds(sign, p + "." + q);
  }

  lemma ZerosMantissa(z: string)
    requires |z| > 0 && forall i :: 0 <= i < |z| ==> z[i] == '0'
    ensures ZeroMantissa(z)
  {
    CountAbsent(z, '.');
  }

  lemma EmptyEnds(a: string, b: string)
    ensures "" + a + b + "" == a + b
  {
  }

  /** A run of zeros, signed or not ("0", "-0", "+000"), is numeric zero. */
  lemma SignedZeros(sign: string, z: string)
    requires sign == "" || sign == "+" || sign == "-"
    requires |z| > 0 && forall i :: 0 <= i < |z| ==> z[i] == '0'
    ensures ZeroNumeric(sign + z)
  {
    ZerosMantissa(z);
    ZeroNumericOf("", sign, z, "");
    EmptyEnds(sign, z);
  }
}
