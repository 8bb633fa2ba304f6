/**
 * The deterministic core of the SRUN portal client `BitSRun` (bitsrun_buct.py).
 *
 * HTTP round trips become their response bodies (`None` when the request raised),
 * the millisecond timestamp of each request becomes a parameter, and the library
 * calls the client makes (HMAC-MD5, SHA-1, `json.dumps` string quoting and
 * `json.loads`) are gathered in a `Primitives` value whose functions are left
 * uninterpreted, apart from the documented facts `QuotesFaithfully` names.
 */
module Client {
  import opened Wrappers
  import opened PyStr
  import opened ByteStrings
  import opened XEncoding
  import opened Base64Utils
  import Base64Injective

  type Byte = b: int | 0 <= b < 256

  /** A 16-byte MD5 digest. */
  type Md5Digest = d: seq<Byte> | |d| == 16 witness seq(16, _ => 0)

  /** A 20-byte SHA-1 digest. */
  type Sha1Digest = d: seq<Byte> | |d| == 20 witness seq(20, _ => 0)

  /** A JSON value in a parsed reply: only strings are inspected by the client. */
  datatype JsonValue = JString(s: string) | JOther

  /** A parsed JSON object. */
  type JsonObject = map<string, JsonValue>

  /** The library functions the client calls. */
  datatype Primitives = Primitives(
    hmacMd5: (string, string) -> Md5Digest,      // key, message
    sha1: string -> Sha1Digest,
    quote: string -> string,                     // json.dumps of one string
    loads: string -> Option<JsonObject>)         // json.loads; None on a decode error

  /** A character `json.dumps` copies unchanged. */
  predicate PlainChar(c: char)
  {
    ' ' <= c <= '~' && c != '"' && c != '\\'
  }

  predicate PlainText(s: string)
  {
    forall i | 0 <= i < |s| :: PlainChar(s[i])
  }

  /**
   * What `json.dumps` (with its default `ensure_ascii`) does for strings: its output
   * is ASCII, and a string of plain characters is only wrapped in quotes.
   */
  ghost predicate QuotesFaithfully(p: Primitives)
  {
    forall s: string ::
      IsByteString(p.quote(s)) && (PlainText(s) ==> p.quote(s) == "\"" + s + "\"")
  }

  // ---------------------------------------------------------------------------
  // Hex digests: `_get_md5` and `_get_sha1`
  // ---------------------------------------------------------------------------

  predicate IsLowerHex(s: string)
  {
    forall i | 0 <= i < |s| :: '0' <= s[i] <= '9' || 'a' <= s[i] <= 'f'
  }

  function HexDigit(n: nat): (c: char)
    requires n < 16
  {
    if n < 10 then ('0' as int + n) as char else ('a' as int + n - 10) as char
  }

  /** The value of a lower-case hex digit, or -1. */
  function DigitValue(c: char): (v: int)
    ensures -1 <= v < 16
  {
    if '0' <= c <= '9' then c as int - '0' as int
    else if 'a' <= c <= 'f' then c as int - 'a' as int + 10
    else -1
  }

  /** `hexdigest()`: two lower-case digits per byte, high nibble first. */
  function Hex(d: seq<Byte>): (r: string)
    ensures |r| == 2 * |d|
    ensures IsLowerHex(r)
  {
    if d == [] then "" else [HexDigit(d[0] / 16), HexDigit(d[0] % 16)] + Hex(d[1..])
  }

  /** Reading a hex string back into bytes. */
  function Unhex(s: string): Option<seq<Byte>>
  {
    if |s| == 0 then Some([])
    else if |s| == 1 then None
    else
      var hi, lo := DigitValue(s[0]), DigitValue(s[1]);
      if hi < 0 || lo < 0 then None
      else match Unhex(s[2..])
        case None => None
        case Some(rest) => Some([16 * hi + lo] + rest)
  }

  lemma DigitValueHexDigit(n: nat)
    requires n < 16
    ensures DigitValue(HexDigit(n)) == n
  {
  }

  /** The hex rendering loses nothing: it reads back to the digest. */
  lemma {:induction false} UnhexHex(d: seq<Byte>)
    ensures Unhex(Hex(d)) == Some(d)
  {
    if d != [] {
      var h := Hex(d);
      assert h[2..] == Hex(d[1..]);
      DigitValueHexDigit(d[0] / 16);
      DigitValueHexDigit(d[0] % 16);
      UnhexHex(d[1..]);
      assert [d[0]] + d[1..] == d;
    }
  }

  /** `_get_md5(password, token)`: the HMAC-MD5 of the password keyed by the token, in hex. */
  function GetMd5(p: Primitives, password: string, token: string): (r: string)
    ensures |r| == 32 && IsLowerHex(r)
    ensures Unhex(r) == Some(p.hmacMd5(token, password))
  {
    UnhexHex(p.hmacMd5(token, password));
    Hex(p.hmacMd5(token, password))
  }

  /** `_get_sha1(value)`: the SHA-1 of the value in hex, followed by one newline. */
  function GetSha1(p: Primitives, value: string): (r: string)
    ensures |r| == 41 && r[40] == '\n'
    ensures IsLowerHex(r[..40])
    ensures Unhex(r[..40]) == Some(p.sha1(value))
  {
    var h := Hex(p.sha1(value));
    UnhexHex(p.sha1(value));
    assert (h + "\n")[..40] == h;
    h + "\n"
  }

  // ---------------------------------------------------------------------------
  // Login username, info JSON, info field and checksum pre-image
  // ---------------------------------------------------------------------------

  /** The login username: the user type, when there is one, is appended after an `@`. */
  function LoginUsername(username: string, userType: string): (r: string)
    ensures |r| >= |username| && r[..|username|] == username
    ensures userType == "" ==> r == username
    ensures userType != "" ==> r[|username|..] == "@" + userType
  {
    if userType != "" then username + "@" + userType else username
  }

  /** `_get_info`: a compact JSON object with five string members, in this order. */
  function InfoJson(p: Primitives, username: string, password: string, ip: string,
                    acid: string, encVer: string): (r: string)
    ensures |r| > 12 && r[..12] == "{\"username\":" && r[|r| - 1] == '}'
  {
    "{\"username\":" + p.quote(username) + ",\"password\":" + p.quote(password)
    + ",\"ip\":" + p.quote(ip) + ",\"acid\":" + p.quote(acid)
    + ",\"enc_ver\":" + p.quote(encVer) + "}"
  }

  /** With plain field values the info JSON is the five quoted values, no whitespace. */
  lemma InfoJsonLayout(p: Primitives, username: string, password: string, ip: string,
                       acid: string, encVer: string)
    requires QuotesFaithfully(p)
    requires PlainText(username) && PlainText(password) && PlainText(ip)
    requires PlainText(acid) && PlainText(encVer)
    ensures InfoJson(p, username, password, ip, acid, encVer)
         == "{\"username\":" + ("\"" + username + "\"") + ",\"password\":" + ("\"" + password + "\"")
            + ",\"ip\":" + ("\"" + ip + "\"") + ",\"acid\":" + ("\"" + acid + "\"")
            + ",\"enc_ver\":" + ("\"" + encVer + "\"") + "}"
  {
    assert p.quote(username) == "\"" + username + "\"";
    assert p.quote(password) == "\"" + password + "\"";
    assert p.quote(ip) == "\"" + ip + "\"";
    assert p.quote(acid) == "\"" + acid + "\"";
    assert p.quote(encVer) == "\"" + encVer + "\"";
  }

  /** The info JSON is a byte string, so the block transform and Base64 apply to it. */
  lemma InfoJsonBytes(p: Primitives, username: string, password: string, ip: string,
                      acid: string, encVer: string)
    requires QuotesFaithfully(p)
    ensures IsByteString(InfoJson(p, username, password, ip, acid, encVer))
  {
    var q1, q2, q3, q4, q5 := p.quote(username), p.quote(password), p.quote(ip),
                              p.quote(acid), p.quote(encVer);
    assert IsByteString(q1) && IsByteString(q2) && IsByteString(q3);
    assert IsByteString(q4) && IsByteString(q5);
  }

  /** The `{prefix}` marker, absent when the prefix is empty. */
  function Braced(prefix: string): (r: string)
    ensures prefix == "" <==> r == ""
  {
    if prefix != "" then "{" + prefix + "}" else ""
  }

  /**
   * The transmitted info field: the `{prefix}` marker, then the Base64 text of the encoded
   * info, which is empty exactly when the info is.
   */
  function InfoField(prefix: string, info: string, token: string): (r: string)
    ensures |r| >= |Braced(prefix)| && r[..|Braced(prefix)|] == Braced(prefix)
    ensures info == "" <==> r == Braced(prefix)
  {
    var x := XEncodeSpec(info, token);
    assert info != "" ==> |Base64Spec(x)| > 0;
    Braced(prefix) + Base64Spec(x)
  }

  /** The info field loses nothing: under one prefix and token, equal fields come from equal JSON. */
  lemma InfoFieldDetermines(prefix: string, a: string, b: string, token: string)
    requires IsByteString(a) && |a| < Word32
    requires IsByteString(b) && |b| < Word32
    requires InfoField(prefix, a, token) == InfoField(prefix, b, token)
    ensures a == b
  {
    var ea, eb := XEncodeSpec(a, token), XEncodeSpec(b, token);
    var n := |Braced(prefix)|;
    assert Base64Spec(ea) == InfoField(prefix, a, token)[n..];
    assert Base64Spec(eb) == InfoField(prefix, b, token)[n..];
    Base64Injective.Base64Injective(ea, eb);
    XEncodeRoundTrip(a, token);
    XEncodeRoundTrip(b, token);
  }

  /** The checksum pre-image: every field preceded by the token. */
  function ChkPreimage(token: string, fields: seq<string>): string
  {
    if fields == [] then ""
    else ChkPreimage(token, fields[..|fields| - 1]) + (token + fields[|fields| - 1])
  }

  lemma ChkPreimageSnoc(token: string, fields: seq<string>, f: string)
    ensures ChkPreimage(token, fields + [f]) == ChkPreimage(token, fields) + (token + f)
  {
    assert (fields + [f])[..|fields|] == fields;
  }

  /** The seven-field pre-image of a login, written out as the running concatenation. */
  lemma ChkPreimageSeven(token: string, f1: string, f2: string, f3: string, f4: string,
                         f5: string, f6: string, f7: string)
    ensures ChkPreimage(token, [f1, f2, f3, f4, f5, f6, f7])
         == (token + f1) + (token + f2) + (token + f3) + (token + f4)
            + (token + f5) + (token + f6) + (token + f7)
  {
    assert ChkPreimage(token, [f1]) == token + f1 by {
      assert [f1][..0] == [];
    }
    ChkPreimageSnoc(token, [f1], f2);
    assert [f1] + [f2] == [f1, f2];
    ChkPreimageSnoc(token, [f1, f2], f3);
    assert [f1, f2] + [f3] == [f1, f2, f3];
    ChkPreimageSnoc(token, [f1, f2, f3], f4);
    assert [f1, f2, f3] + [f4] == [f1, f2, f3, f4];
    ChkPreimageSnoc(token, [f1, f2, f3, f4], f5);
    assert [f1, f2, f3, f4] + [f5] == [f1, f2, f3, f4, f5];
    ChkPreimageSnoc(token, [f1, f2, f3, f4, f5], f6);
    assert [f1, f2, f3, f4, f5] + [f6] == [f1, f2, f3, f4, f5, f6];
    ChkPreimageSnoc(token, [f1, f2, f3, f4, f5, f6], f7);
    assert [f1, f2, f3, f4, f5, f6] + [f7] == [f1, f2, f3, f4, f5, f6, f7];
  }

  /** The pre-image of consecutive field lists is the concatenation of their pre-images. */
  lemma {:induction false} ChkPreimageConcat(token: string, a: seq<string>, b: seq<string>)
    ensures ChkPreimage(token, a + b) == ChkPreimage(token, a) + ChkPreimage(token, b)
  {
    if b != [] {
      var b' := b[..|b| - 1];
      ChkPreimageConcat(token, a, b');
      assert (a + b)[..|a + b| - 1] == a + b';
    } else {
      assert a + b == a;
    }
  }

  function TotalLength(fields: seq<string>): nat
  {
    if fields == [] then 0 else TotalLength(fields[..|fields| - 1]) + |fields[|fields| - 1]|
  }

  /** Each field adds one copy of the token and itself. */
  lemma {:induction false} ChkPreimageLength(token: string, fields: seq<string>)
    ensures |ChkPreimage(token, fields)| == |fields| * |token| + TotalLength(fields)
  {
    if fields != [] {
      ChkPreimageLength(token, fields[..|fields| - 1]);
    }
  }

  // ---------------------------------------------------------------------------
  // `_request`: JSONP unwrapping
  // ---------------------------------------------------------------------------

  /** One HTTP exchange: the body (None when the request raised) and the request's timestamp. */
  datatype Response = Response(body: Option<string>, timestamp: nat)

  /** The JSONP callback name of a request made at `timestamp` milliseconds. */
  function Callback(timestamp: nat): (r: string)
    ensures forall i | 0 <= i < |r| :: r[i] != '(' && r[i] != ')'
  {
    "jQuery_" + Decimal(timestamp)
  }

  /**
   * The text between the first `(` and the last `)`, when the callback name occurs at all.
   * It is never longer than the content.
   */
  function Unwrap(content: string, callback: string): (r: Option<string>)
    ensures r.Some? <==> Contains(content, callback)
    ensures r.Some? ==> |r.value| <= |content|
  {
    if Contains(content, callback)
    then Some(Slice(content, Find(content, "(") + 1, RFindChar(content, ')')))
    else None
  }

  /**
   * The parsed reply `_request` returns: nothing when the request failed, and nothing from a
   * body that does not mention the request's callback name.
   */
  function Parse(p: Primitives, r: Response): (res: Option<JsonObject>)
    ensures r.body.None? ==> res.None?
    ensures res.Some? ==> Contains(r.body.value, Callback(r.timestamp))
  {
    if r.body.None? then None
    else match Unwrap(r.body.value, Callback(r.timestamp))
      case None => None
      case Some(inner) => p.loads(inner)
  }

  lemma FindFirstOpen(s: string, pre: string)
    requires |pre| < |s| && s[..|pre|] == pre && s[|pre|] == '('
    requires forall i | 0 <= i < |pre| :: pre[i] != '('
    ensures Find(s, "(") == |pre|
  {
    assert OccursAt(s, "(", |pre|);
    forall i | 0 <= i < |pre|
      ensures !OccursAt(s, "(", i)
    {
      assert s[i] == pre[i];
    }
  }

  /**
   * A JSONP envelope unwraps to exactly its argument, parentheses inside it included,
   * whatever surrounds it, as long as no `(` comes before and no `)` after.
   */
  lemma UnwrapEnvelope(pre: string, callback: string, json: string, post: string)
    requires forall i | 0 <= i < |pre| :: pre[i] != '('
    requires forall i | 0 <= i < |callback| :: callback[i] != '('
    requires forall i | 0 <= i < |post| :: post[i] != ')'
    ensures Unwrap(pre + callback + "(" + json + ")" + post, callback) == Some(json)
  {
    var head := pre + callback;
    var s := head + "(" + json + ")" + post;
    assert s == pre + callback + "(" + json + ")" + post;
    assert OccursAt(s, callback, |pre|) by {
      assert s[|pre|..|pre| + |callback|] == callback;
    }
    assert Find(s, callback) != -1;
    assert s[..|head|] == head;
    FindFirstOpen(s, head);
    var close := |head| + 1 + |json|;
    assert s[close] == ')';
    forall i | close < i < |s|
      ensures s[i] != ')'
    {
      assert s[i] == post[i - close - 1];
    }
    assert RFindChar(s, ')') == close;
    SliceInside(s, |head| + 1, close);
    assert s[|head| + 1..close] == json;
  }

  /**
   * Without any parenthesis, `find` and `rfind` both give -1, so the slice `[0:-1]` keeps
   * everything but the last character.
   */
  lemma UnwrapWithoutParentheses(content: string, callback: string)
    requires Contains(content, callback) && |content| > 0
    requires forall i | 0 <= i < |content| :: content[i] != '(' && content[i] != ')'
    ensures Unwrap(content, callback) == Some(content[..|content| - 1])
  {
    forall i | 0 <= i <= |content|
      ensures !OccursAt(content, "(", i)
    {
      if i < |content| {
        assert content[i..i + 1] == [content[i]];
      }
    }
    assert Find(content, "(") == -1;
    assert RFindChar(content, ')') == -1;
    SliceInside(content, 0, |content| - 1);
  }

  /** A well-formed reply to a request is parsed from its JSONP argument. */
  lemma ParseEnvelope(p: Primitives, timestamp: nat, json: string)
    ensures Parse(p, Response(Some(Callback(timestamp) + "(" + json + ")"), timestamp))
         == p.loads(json)
  {
    UnwrapEnvelope("", Callback(timestamp), json, "");
    assert "" + Callback(timestamp) + "(" + json + ")" + ""
        == Callback(timestamp) + "(" + json + ")";
  }

  /** A body that does not mention the callback name is never parsed. */
  lemma ParseNeedsCallback(p: Primitives, timestamp: nat, body: string)
    requires !Contains(body, Callback(timestamp))
    ensures Parse(p, Response(Some(body), timestamp)) == None
  {
  }

  /**
   * The `error == "ok"` test of `check_online` and `login`: a failed request, a reply
   * without an `error` member and an `error` other than the string "ok" all count as failure.
   */
  predicate IsOk(res: Option<JsonObject>)
    ensures res.None? ==> !IsOk(res)
    ensures res.Some? && "error" !in res.value ==> !IsOk(res)
    ensures res.Some? && "error" in res.value && res.value["error"] != JString("ok") ==> !IsOk(res)
  {
    res.Some? && "error" in res.value && res.value["error"] == JString("ok")
  }

  /** A reply is accepted exactly when its JSONP argument parses to an object with error "ok". */
  lemma OkEnvelope(p: Primitives, timestamp: nat, json: string)
    ensures IsOk(Parse(p, Response(Some(Callback(timestamp) + "(" + json + ")"), timestamp)))
        <==> (p.loads(json).Some? && "error" in p.loads(json).value
              && p.loads(json).value["error"] == JString("ok"))
  {
    ParseEnvelope(p, timestamp, json);
  }

  /** The challenge member of a parsed reply, if present. */
  function ChallengeOf(res: Option<JsonObject>): Option<JsonValue>
  {
    if res.Some? && "challenge" in res.value then Some(res.value["challenge"]) else None
  }

  // ---------------------------------------------------------------------------
  // `get_ip`: the pattern `ip\s*:\s*"(.*?)"`
  // ---------------------------------------------------------------------------

  /** Python's `\s` on text: the characters `str.isspace` accepts. */
  predicate IsSpace(c: char)
  {
    var n := c as int;
    (9 <= n <= 13) || (0x1c <= n <= 0x20) || n == 0x85 || n == 0xa0 || n == 0x1680
    || (0x2000 <= n <= 0x200a) || n == 0x2028 || n == 0x2029 || n == 0x202f
    || n == 0x205f || n == 0x3000
  }

  /** The end of the run of white space starting at i. */
  function SkipSpaces(s: string, i: nat): (r: nat)
    requires i <= |s|
    ensures i <= r <= |s|
    ensures forall t | i <= t < r :: IsSpace(s[t])
    ensures r < |s| ==> !IsSpace(s[r])
    decreases |s| - i
  {
    if i == |s| || !IsSpace(s[i]) then i else SkipSpaces(s, i + 1)
  }

  /** The first quote or newline at or after i, or the end. */
  function QuoteOrNewline(s: string, i: nat): (r: nat)
    requires i <= |s|
    ensures i <= r <= |s|
    ensures forall t | i <= t < r :: s[t] != '"' && s[t] != '\n'
    ensures r < |s| ==> s[r] == '"' || s[r] == '\n'
    decreases |s| - i
  {
    if i == |s| || s[i] == '"' || s[i] == '\n' then i else QuoteOrNewline(s, i + 1)
  }

  /** The capture of the pattern matched at position i, if it matches there. */
  function MatchIpAt(s: string, i: nat): (r: Option<string>)
    ensures r.Some? ==> forall t | 0 <= t < |r.value| :: r.value[t] != '"' && r.value[t] != '\n'
  {
    if i + 2 > |s| || s[i] != 'i' || s[i + 1] != 'p' then None
    else
      var j := SkipSpaces(s, i + 2);
      if j == |s| || s[j] != ':' then None
      else
        var k := SkipSpaces(s, j + 1);
        if k == |s| || s[k] != '"' then None
        else
          var e := QuoteOrNewline(s, k + 1);
          if e == |s| || s[e] != '"' then None else Some(s[k + 1..e])
  }

  /**
   * The pattern, read as a language: "ip" at i, spaces up to the colon at j, spaces up to
   * the quote at k, then the capture c (no newline, since `.` does not match one) and a quote.
   */
  predicate IpPatternAt(s: string, i: nat, j: nat, k: nat, c: string)
  {
    i + 2 <= j < k && k + 1 + |c| < |s|
    && s[i] == 'i' && s[i + 1] == 'p'
    && (forall t | i + 2 <= t < j :: IsSpace(s[t])) && s[j] == ':'
    && (forall t | j + 1 <= t < k :: IsSpace(s[t])) && s[k] == '"'
    && s[k + 1..k + 1 + |c|] == c && s[k + 1 + |c|] == '"'
    && (forall t | 0 <= t < |c| :: c[t] != '\n')
  }

  /** A run of white space ended by another character is skipped exactly to that character. */
  lemma {:induction false} SkipSpacesTo(s: string, i: nat, j: nat)
    requires i <= j < |s| && !IsSpace(s[j])
    requires forall t | i <= t < j :: IsSpace(s[t])
    ensures SkipSpaces(s, i) == j
    decreases j - i
  {
    if i < j {
      SkipSpacesTo(s, i + 1, j);
    }
  }

  /** Text without newlines up to a quote at `end` stops the scan at the first quote. */
  lemma {:induction false} QuoteOrNewlineTo(s: string, i: nat, end: nat)
    requires i <= end < |s| && s[end] == '"'
    requires forall t | i <= t < end :: s[t] != '\n'
    ensures QuoteOrNewline(s, i) <= end && s[QuoteOrNewline(s, i)] == '"'
    decreases end - i
  {
    if i < end && s[i] != '"' {
      QuoteOrNewlineTo(s, i + 1, end);
    }
  }

  /** What `MatchIpAt` returns is a match of the pattern. */
  lemma MatchIpSound(s: string, i: nat) returns (j: nat, k: nat)
    requires MatchIpAt(s, i).Some?
    ensures IpPatternAt(s, i, j, k, MatchIpAt(s, i).value)
  {
    j := SkipSpaces(s, i + 2);
    k := SkipSpaces(s, j + 1);
  }

  /**
   * Wherever the pattern matches, `MatchIpAt` matches too, and its capture is the
   * shortest one: a prefix of every capture the pattern allows there (`.*?` is lazy).
   */
  lemma MatchIpComplete(s: string, i: nat, j: nat, k: nat, c: string)
    requires IpPatternAt(s, i, j, k, c)
    ensures MatchIpAt(s, i).Some?
    ensures MatchIpAt(s, i).value <= c
  {
    SkipSpacesTo(s, i + 2, j);
    SkipSpacesTo(s, j + 1, k);
    var end := k + 1 + |c|;
    forall t | k + 1 <= t < end
      ensures s[t] != '\n'
    {
      assert s[t] == c[t - k - 1];
    }
    QuoteOrNewlineTo(s, k + 1, end);
  }

  /** The leftmost position at or after `from` where the pattern matches, as `re.search` finds it. */
  function FirstMatch(s: string, from: nat): (r: Option<nat>)
    requires from <= |s|
    ensures r.Some? ==> from <= r.value <= |s| && MatchIpAt(s, r.value).Some?
    ensures r.Some? ==> forall i | from <= i < r.value :: MatchIpAt(s, i).None?
    ensures r.None? ==> forall i | from <= i <= |s| :: MatchIpAt(s, i).None?
    decreases |s| - from
  {
    if MatchIpAt(s, from).Some? then Some(from)
    else if from == |s| then None
    else FirstMatch(s, from + 1)
  }

  /**
   * The address `get_ip` extracts from the portal page: the capture of the leftmost place
   * where the pattern matches, and nothing when there is no page or no match.
   */
  function IpOf(page: Option<string>): (r: Option<string>)
    ensures r.Some? <==> page.Some? && exists i | 0 <= i <= |page.value| :: MatchIpAt(page.value, i).Some?
    ensures r.Some? ==> exists i | 0 <= i <= |page.value| ::
      MatchIpAt(page.value, i) == r && forall j | 0 <= j < i :: MatchIpAt(page.value, j).None?
    ensures r.Some? ==> forall t | 0 <= t < |r.value| :: r.value[t] != '"' && r.value[t] != '\n'
  {
    if page.None? then None
    else match FirstMatch(page.value, 0)
      case None => None
      case Some(i) => MatchIpAt(page.value, i)
  }

  // ---------------------------------------------------------------------------
  // The client
  // ---------------------------------------------------------------------------

  /** The settings the client reads from its configuration file. */
  datatype Config = Config(
    username: string, password: string, userType: string,
    acId: string, encVer: string, n: string, loginType: string,
    os: string, name: string, doubleStack: string, infoPrefix: string)

  /** How a call ended: it returned a value, or an exception escaped it. */
  datatype Outcome = Returned(value: bool) | Raised

  /** The parameters of the login request. */
  datatype LoginRequest = LoginRequest(
    action: string, username: string, password: string, acId: string, ip: string,
    info: string, chksum: string, n: string, loginType: string,
    os: string, name: string, doubleStack: string)

  /**
   * The login request built for a challenge token: the configured fields and the address as
   * they are, a 37-character `{MD5}` password and a 41-character checksum ending in a newline.
   */
  function LoginRequestFor(c: Config, p: Primitives, ip: string, token: string): (r: LoginRequest)
    ensures r.action == "login" && r.ip == ip && r.acId == c.acId && r.n == c.n
    ensures r.loginType == c.loginType && r.os == c.os && r.name == c.name && r.doubleStack == c.doubleStack
    ensures r.username == LoginUsername(c.username, c.userType)
    ensures |r.password| == 37 && r.password[..5] == "{MD5}"
    ensures |r.chksum| == 41 && r.chksum[40] == '\n'
    ensures |r.info| >= |Braced(c.infoPrefix)| && r.info[..|Braced(c.infoPrefix)|] == Braced(c.infoPrefix)
  {
    var user := LoginUsername(c.username, c.userType);
    var info := InfoField(c.infoPrefix, InfoJson(p, user, c.password, ip, c.acId, c.encVer), token);
    var md5 := GetMd5(p, c.password, token);
    var chksum := GetSha1(p, ChkPreimage(token, [user, md5, c.acId, ip, c.n, c.loginType, info]));
    LoginRequest("login", user, "{MD5}" + md5, c.acId, ip, info, chksum,
                 c.n, c.loginType, c.os, c.name, c.doubleStack)
  }

  /**
   * What `login` does with its two replies: the outcome and the login request sent, if any.
   * A challenge that is not a string makes the request-building code raise.
   */
  function LoginOutcome(c: Config, p: Primitives, ip: string,
                        challenge: Response, reply: Response): (o: (Outcome, Option<LoginRequest>))
    ensures var ch := ChallengeOf(Parse(p, challenge));
      (o.1.Some? <==> ch.Some? && ch.value.JString?)
      && (o.0 == Raised <==> ch.Some? && ch.value.JOther?)
      && (ch.None? ==> o.0 == Returned(false))
      && (o.1.Some? ==> o.1.value == LoginRequestFor(c, p, ip, ch.value.s)
                        && o.0 == Returned(IsOk(Parse(p, reply))))
  {
    match ChallengeOf(Parse(p, challenge))
      case None => (Returned(false), None)
      case Some(JString(token)) => (Returned(IsOk(Parse(p, reply))), Some(LoginRequestFor(c, p, ip, token)))
      case Some(JOther) => (Raised, None)
  }

  /** The password field is "{MD5}" and the 32-digit HMAC-MD5 of the password keyed by the token. */
  lemma LoginPasswordField(c: Config, p: Primitives, ip: string, token: string)
    ensures var r := LoginRequestFor(c, p, ip, token);
      |r.password| == 37 && r.password[..5] == "{MD5}" && IsLowerHex(r.password[5..])
      && Unhex(r.password[5..]) == Some(p.hmacMd5(token, c.password))
  {
    var r := LoginRequestFor(c, p, ip, token);
    assert r.password[5..] == GetMd5(p, c.password, token);
  }

  /**
   * The checksum is 40 hex digits and a newline, the SHA-1 of the token-prefixed fields
   * sent in the same request, with the bare digest in place of the "{MD5}" password.
   */
  lemma LoginChecksumField(c: Config, p: Primitives, ip: string, token: string)
    ensures var r := LoginRequestFor(c, p, ip, token);
      |r.chksum| == 41 && r.chksum[40] == '\n' && IsLowerHex(r.chksum[..40])
      && Unhex(r.chksum[..40]) == Some(p.sha1(ChkPreimage(token,
           [r.username, r.password[5..], r.acId, r.ip, r.n, r.loginType, r.info])))
  {
    var r := LoginRequestFor(c, p, ip, token);
    assert r.password[5..] == GetMd5(p, c.password, token);
  }

  /**
   * The info field identifies the info JSON it was built from: two logins under the same
   * token and prefix send the same info field only when their info JSON agree.
   */
  lemma LoginInfoField(c: Config, c': Config, p: Primitives, ip: string, ip': string, token: string)
    requires QuotesFaithfully(p) && c.infoPrefix == c'.infoPrefix
    requires var u := LoginUsername(c.username, c.userType);
      |InfoJson(p, u, c.password, ip, c.acId, c.encVer)| < Word32
    requires var u := LoginUsername(c'.username, c'.userType);
      |InfoJson(p, u, c'.password, ip', c'.acId, c'.encVer)| < Word32
    requires LoginRequestFor(c, p, ip, token).info == LoginRequestFor(c', p, ip', token).info
    ensures var u, u' := LoginUsername(c.username, c.userType), LoginUsername(c'.username, c'.userType);
      InfoJson(p, u, c.password, ip, c.acId, c.encVer) == InfoJson(p, u', c'.password, ip', c'.acId, c'.encVer)
  {
    var u, u' := LoginUsername(c.username, c.userType), LoginUsername(c'.username, c'.userType);
    InfoJsonBytes(p, u, c.password, ip, c.acId, c.encVer);
    InfoJsonBytes(p, u', c'.password, ip', c'.acId, c'.encVer);
    InfoFieldDetermines(c.infoPrefix, InfoJson(p, u, c.password, ip, c.acId, c.encVer),
                        InfoJson(p, u', c'.password, ip', c'.acId, c'.encVer), token);
  }

  class BitSRun {
    const config: Config
    const prims: Primitives
    var ip: string
    var loginUsername: string

    constructor (config: Config, prims: Primitives)
      ensures this.config == config && this.prims == prims
      ensures ip == "" && loginUsername == ""
    {
      this.config := config;
      this.prims := prims;
      ip := "";
      loginUsername := "";
    }

    /** `_get_info` over the current state. */
    function Info(): string
      reads this
    {
      InfoJson(prims, loginUsername, config.password, ip, config.acId, config.encVer)
    }

    /** `get_ip`: on a match, the capture becomes the client's address. */
    method GetIp(page: Option<string>) returns (ok: bool)
      modifies this`ip
      ensures ok <==> IpOf(page).Some?
      ensures ok ==> ip == IpOf(page).value
      ensures !ok ==> ip == old(ip)
    {
      if page.None? {
        return false;
      }
      var m := FirstMatch(page.value, 0);
      if m.None? {
        return false;
      }
      ip := MatchIpAt(page.value, m.value).value;
      return true;
    }

    /** `check_online`: online exactly when the status reply says error "ok". */
    method CheckOnline(status: Response) returns (online: bool)
      ensures online <==> IsOk(Parse(prims, status))
    {
      var res := Parse(prims, status);
      online := res.Some? && "error" in res.value && res.value["error"] == JString("ok");
    }

    /** `_get_chksum`: the checksum over the token-prefixed fields, accumulated in order. */
    method GetChksum(token: string, loginUsername: string, md5: string, ip: string,
                     infoStr: string) returns (r: string)
      ensures r == GetSha1(prims, ChkPreimage(token,
                [loginUsername, md5, config.acId, ip, config.n, config.loginType, infoStr]))
    {
      var chkstr := token + loginUsername;
      chkstr := chkstr + (token + md5);
      chkstr := chkstr + (token + config.acId);
      chkstr := chkstr + (token + ip);
      chkstr := chkstr + (token + config.n);
      chkstr := chkstr + (token + config.loginType);
      chkstr := chkstr + (token + infoStr);
      ChkPreimageSeven(token, loginUsername, md5, config.acId, ip, config.n, config.loginType, infoStr);
      r := GetSha1(prims, chkstr);
    }

    /**
     * `login`: rebuilds the login username, asks for a challenge and, given a string
     * token, sends the login request and reports whether the reply says error "ok".
     */
    method Login(challenge: Response, reply: Response) returns (outcome: Outcome, sent: Option<LoginRequest>)
      modifies this`loginUsername
      ensures loginUsername == LoginUsername(config.username, config.userType)
      ensures (outcome, sent) == LoginOutcome(config, prims, ip, challenge, reply)
    {
      loginUsername := config.username;
      if config.userType != "" {
        loginUsername := loginUsername + "@" + config.userType;
      }
      var res := Parse(prims, challenge);
      if res.None? || "challenge" !in res.value {
        return Returned(false), None;
      }
      if !res.value["challenge"].JString? {
        return Raised, None;
      }
      var token := res.value["challenge"].s;
      var info := Info();
      var encoded := XEncode(info, token);
      var b64 := GetBase64(encoded);
      var prefix := "";
      if config.infoPrefix != "" {
        prefix := "{" + config.infoPrefix + "}";
      }
      var infoEncoded := prefix + b64;
      var md5 := GetMd5(prims, config.password, token);
      var hmd5 := "{MD5}" + md5;
      var chksum := GetChksum(token, loginUsername, md5, ip, infoEncoded);
      sent := Some(LoginRequest("login", loginUsername, hmd5, config.acId, ip, infoEncoded, chksum,
                                config.n, config.loginType, config.os, config.name, config.doubleStack));
      outcome := Returned(IsOk(Parse(prims, reply)));
    }

    /**
     * `run`: find the address, stop if already online, otherwise log in and, only after
     * a successful login, check the status again.
     */
    method Run(page: Option<string>, status: Response, challenge: Response, reply: Response,
               statusAfter: Response) returns (outcome: Outcome, sent: Option<LoginRequest>)
      modifies this`ip, this`loginUsername
      ensures IpOf(page).None? ==>
        outcome == Returned(false) && sent == None
        && ip == old(ip) && loginUsername == old(loginUsername)
      ensures IpOf(page).Some? ==> ip == IpOf(page).value
      ensures IpOf(page).Some? && IsOk(Parse(prims, status)) ==>
        outcome == Returned(true) && sent == None && loginUsername == old(loginUsername)
      ensures IpOf(page).Some? && !IsOk(Parse(prims, status)) ==>
        var (o, s) := LoginOutcome(config, prims, IpOf(page).value, challenge, reply);
        loginUsername == LoginUsername(config.username, config.userType) && sent == s
        && outcome == (if o == Returned(true) then Returned(IsOk(Parse(prims, statusAfter))) else o)
      ensures sent.Some? ==> sent.value.ip == ip
    {
      var found := GetIp(page);
      if !found {
        return Returned(false), None;
      }
      var online := CheckOnline(status);
      if online {
        return Returned(true), None;
      }
      outcome, sent := Login(challenge, reply);
      if outcome == Returned(true) {
        var again := CheckOnline(statusAfter);
        outcome := Returned(again);
      }
    }
  }
}
