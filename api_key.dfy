/**
 * API-key configuration, generation and syntactic validation
 * (backend/utils/apiKey.js). The environment is an explicit record, the
 * random bytes are an input, and the JavaScript regular-expression engine
 * is an oracle.
 */
module ApiKeys {
  import opened Js

  /** The process environment variables the backend reads. */
  datatype Env = Env(
    jwtSecret: Option<string>,
    apiKeyPrefix: Option<string>,
    apiKeyBytes: Option<string>,
    apiKeyEncoding: Option<string>,
    apiKeyAllowedRegex: Option<string>)

  datatype Encoding = Hex | Base64 | Base64Url

  function EncodingName(e: Encoding): string {
    match e
    case Hex => "hex"
    case Base64 => "base64"
    case Base64Url => "base64url"
  }

  /** The normalised key-generation configuration. */
  datatype Config = Config(prefix: string, bytes: nat, encoding: Encoding, allowedRegex: string)

  /** Byte count used when API_KEY_BYTES is unset, unparseable or not positive. */
  const DefaultBytes: nat := 32

  /** `Number.parseInt(process.env.API_KEY_BYTES, 10)`; `None` is NaN. */
  function RequestedBytes(env: Env): Option<int> {
    match env.apiKeyBytes
    case None => None
    case Some(s) => ParseInt(s, false)
  }

  /** `(process.env.API_KEY_ENCODING || 'hex').toLowerCase()`. */
  function RequestedEncoding(env: Env): string {
    ToLower(OrElse(env.apiKeyEncoding, "hex"))
  }

  /** `getApiKeyConfig`. */
  function GetApiKeyConfig(env: Env): (cfg: Config)
    ensures cfg.bytes > 0
    ensures cfg.prefix == OrElse(env.apiKeyPrefix, "")
    ensures cfg.allowedRegex == OrElse(env.apiKeyAllowedRegex, "")
    ensures (RequestedBytes(env).Some? && RequestedBytes(env).value > 0) ==> cfg.bytes == RequestedBytes(env).value
    ensures (RequestedBytes(env).None? || RequestedBytes(env).value <= 0) ==> cfg.bytes == DefaultBytes
    ensures EncodingName(cfg.encoding) == RequestedEncoding(env)
         || (cfg.encoding == Hex && RequestedEncoding(env) !in {"base64", "base64url"})
  {
    var n := RequestedBytes(env);
    var enc := RequestedEncoding(env);
    Config(
      OrElse(env.apiKeyPrefix, ""),
      if n.None? || n.value <= 0 then DefaultBytes else n.value,
      if enc == "base64" then Base64 else if enc == "base64url" then Base64Url else Hex,
      OrElse(env.apiKeyAllowedRegex, ""))
  }

  /** Any configured encoding outside the whitelist becomes hex. */
  lemma UnknownEncodingIsHex(env: Env)
    requires RequestedEncoding(env) !in {"hex", "base64", "base64url"}
    ensures GetApiKeyConfig(env).encoding == Hex
  {
  }

  /** A configured API_KEY_BYTES of `n > 0`, written in decimal, is taken as is. */
  lemma DecimalBytesTaken(env: Env, n: nat)
    requires n > 0 && env.apiKeyBytes == Some(Decimal(n))
    ensures GetApiKeyConfig(env).bytes == n
  {
    ParseIntDecimal(n, false);
  }

  // ---------------------------------------------------------------------
  // Format validation
  // ---------------------------------------------------------------------

  /**
   * The JavaScript regular-expression engine as an oracle: whether
   * `new RegExp(pattern)` succeeds, and `re.test(input)`.
   */
  datatype RegexEngine = RegexEngine(compiles: string -> bool, test: (string, string) -> bool)

  datatype FormatCheck = FormatOk | FormatError(message: string)

  /** Which keys the format check accepts, as one condition. */
  predicate AcceptedKey(cfg: Config, re: RegexEngine, apiKey: Value) {
    && apiKey.Str? && apiKey.s != []
    && StartsWith(apiKey.s, cfg.prefix)
    && (cfg.allowedRegex != [] ==> re.compiles(cfg.allowedRegex) && re.test(cfg.allowedRegex, apiKey.s))
  }

  /** `validateApiKeyFormat`: a chain of guards, the first failing one decides the message. */
  function ValidateApiKeyFormat(env: Env, re: RegexEngine, apiKey: Value): (r: FormatCheck)
    ensures r.FormatOk? <==> AcceptedKey(GetApiKeyConfig(env), re, apiKey)
    ensures !apiKey.Str? || apiKey.s == [] ==> r == FormatError("API Key kosong atau tidak valid")
    ensures apiKey.Str? && apiKey.s != [] && !StartsWith(apiKey.s, GetApiKeyConfig(env).prefix)
            ==> r == FormatError("API Key harus diawali prefix: " + GetApiKeyConfig(env).prefix)
    ensures apiKey.Str? && apiKey.s != [] && StartsWith(apiKey.s, GetApiKeyConfig(env).prefix)
            && GetApiKeyConfig(env).allowedRegex != [] && !re.compiles(GetApiKeyConfig(env).allowedRegex)
            ==> r == FormatError("Konfigurasi API_KEY_ALLOWED_REGEX tidak valid")
    ensures apiKey.Str? && apiKey.s != [] && StartsWith(apiKey.s, GetApiKeyConfig(env).prefix)
            && GetApiKeyConfig(env).allowedRegex != [] && re.compiles(GetApiKeyConfig(env).allowedRegex)
            && !re.test(GetApiKeyConfig(env).allowedRegex, apiKey.s)
            ==> r == FormatError("Format API Key tidak sesuai aturan")
  {
    var cfg := GetApiKeyConfig(env);
    if !apiKey.Str? || |apiKey.s| == 0 then
      FormatError("API Key kosong atau tidak valid")
    else if cfg.prefix != [] && !StartsWith(apiKey.s, cfg.prefix) then
      FormatError("API Key harus diawali prefix: " + cfg.prefix)
    else if cfg.allowedRegex != [] && !re.compiles(cfg.allowedRegex) then
      FormatError("Konfigurasi API_KEY_ALLOWED_REGEX tidak valid")
    else if cfg.allowedRegex != [] && !re.test(cfg.allowedRegex, apiKey.s) then
      FormatError("Format API Key tidak sesuai aturan")
    else
      FormatOk
  }

  /** A configured pattern that does not compile rejects every key. */
  lemma UnparseableRegexRejectsAll(env: Env, re: RegexEngine, apiKey: Value)
    requires Present(env.apiKeyAllowedRegex) && !re.compiles(env.apiKeyAllowedRegex.value)
    ensures ValidateApiKeyFormat(env, re, apiKey).FormatError?
  {
  }

  /** With neither prefix nor pattern configured, every non-empty string passes. */
  lemma NoRulesAcceptsNonEmpty(env: Env, re: RegexEngine, key: string)
    requires !Present(env.apiKeyPrefix) && !Present(env.apiKeyAllowedRegex) && key != []
    ensures ValidateApiKeyFormat(env, re, Str(key)) == FormatOk
  {
  }

  // ---------------------------------------------------------------------
  // Hex encoding of the random bytes
  // ---------------------------------------------------------------------

  newtype byte = x: int | 0 <= x < 256

  predicate IsHexDigit(c: char) {
    '0' <= c <= '9' || 'a' <= c <= 'f'
  }

  /** The lower-case hex digit for a nibble. */
  function HexDigit(v: nat): (c: char)
    requires v < 16
    ensures IsHexDigit(c)
  {
    if v < 10 then ('0' as int + v) as char else ('a' as int + v - 10) as char
  }

  function HexDigitValue(c: char): (v: nat)
    requires IsHexDigit(c)
    ensures v < 16 && HexDigit(v) == c
  {
    if '0' <= c <= '9' then c as int - '0' as int else c as int - 'a' as int + 10
  }

  lemma HexDigitRoundTrip(v: nat)
    requires v < 16
    ensures HexDigitValue(HexDigit(v)) == v
  {
  }

  /** `Buffer.toString('hex')`: two lower-case digits per byte, high nibble first. */
  function HexEncode(b: seq<byte>): (r: string)
    ensures |r| == 2 * |b|
    ensures forall k :: 0 <= k < |r| ==> IsHexDigit(r[k])
  {
    if b == [] then []
    else [HexDigit(b[0] as nat / 16), HexDigit(b[0] as nat % 16)] + HexEncode(b[1..])
  }

  /** The inverse of HexEncode on well-formed text. */
  function HexDecode(s: string): (b: seq<byte>)
    requires |s| % 2 == 0
    requires forall k :: 0 <= k < |s| ==> IsHexDigit(s[k])
    ensures |b| == |s| / 2
  {
    if s == [] then []
    else [(HexDigitValue(s[0]) * 16 + HexDigitValue(s[1])) as byte] + HexDecode(s[2..])
  }

  /** Decoding the hex text of a byte string gives the bytes back. */
  lemma {:induction false} HexRoundTrip(b: seq<byte>)
    ensures HexDecode(HexEncode(b)) == b
  {
    if b != [] {
      var s := HexEncode(b);
      assert s[2..] == HexEncode(b[1..]);
      HexRoundTrip(b[1..]);
      HexDigitRoundTrip(b[0] as nat / 16);
      HexDigitRoundTrip(b[0] as nat % 16);
    }
  }

  // ---------------------------------------------------------------------
  // Key generation
  // ---------------------------------------------------------------------

  /**
   * `crypto.randomBytes(cfg.bytes).toString(cfg.encoding)`: hex is computed
   * from the bytes; base64 and base64url text is supplied by the caller.
   */
  function EncodedText(cfg: Config, random: seq<byte>, base64Text: string): string {
    if cfg.encoding == Hex then HexEncode(random) else base64Text
  }

  /** `generateApiKey`: the prefix, then the encoded text left-padded with '0' to `2 * bytes`. */
  function GenerateApiKey(env: Env, random: seq<byte>, base64Text: string): (key: string)
    requires |random| == GetApiKeyConfig(env).bytes
    ensures var cfg := GetApiKeyConfig(env);
            var text := EncodedText(cfg, random, base64Text);
            && StartsWith(key, cfg.prefix)
            && |key| == |cfg.prefix| + (if |text| >= 2 * cfg.bytes then |text| else 2 * cfg.bytes)
            && key[|key| - |text|..] == text
            && (forall k :: |cfg.prefix| <= k < |key| - |text| ==> key[k] == '0')
  {
    var cfg := GetApiKeyConfig(env);
    var padded := PadStart(EncodedText(cfg, random, base64Text), cfg.bytes * 2, '0');
    assert (cfg.prefix + padded)[..|cfg.prefix|] == cfg.prefix;
    cfg.prefix + padded
  }

  /** With hex encoding the key is the prefix and exactly `2 * bytes` hex digits encoding the random bytes. */
  lemma HexKeyShape(env: Env, random: seq<byte>, base64Text: string)
    requires GetApiKeyConfig(env).encoding == Hex
    requires |random| == GetApiKeyConfig(env).bytes
    ensures var cfg := GetApiKeyConfig(env);
            var key := GenerateApiKey(env, random, base64Text);
            && |key| == |cfg.prefix| + 2 * cfg.bytes
            && key == cfg.prefix + HexEncode(random)
  {
    var cfg := GetApiKeyConfig(env);
    var text := HexEncode(random);
    assert EncodedText(cfg, random, base64Text) == text;
    assert PadStart(text, cfg.bytes * 2, '0') == text;
    var key := GenerateApiKey(env, random, base64Text);
    assert key == cfg.prefix + text;
  }

  /** Without a configured pattern every generated key passes the format check. */
  lemma GeneratedKeyPassesFormat(env: Env, re: RegexEngine, random: seq<byte>, base64Text: string)
    requires |random| == GetApiKeyConfig(env).bytes
    requires !Present(env.apiKeyAllowedRegex)
    ensures ValidateApiKeyFormat(env, re, Str(GenerateApiKey(env, random, base64Text))) == FormatOk
  {
    var key := GenerateApiKey(env, random, base64Text);
    assert |key| >= 2;
  }
}
