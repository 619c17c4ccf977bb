/** The text form of a ciphertext, "ctp1." and base64url of R, nonce and body, and
    order encryption down to these bytes, for any encodings of points and any
    authenticated cipher. */
module WireFormat {
  import opened Residues
  import opened Outcomes
  import opened Bytes
  import opened Group
  import opened OrderCipher
  import Base64Url

  const PREFIX := "ctp1."
  const POINT_BYTES := 32
  const NONCE_BYTES := 12
  const TAG_BYTES := 16

  /** The libraries: point encodings, key derivation and AES-256-GCM. */
  datatype Suite = Suite(encode: Point -> seq<byte>, decode: seq<byte> -> PointText,
                         derive: seq<byte> -> seq<byte>,
                         seal: (seq<byte>, seq<byte>, seq<byte>, seq<byte>) -> seq<byte>,
                         open: (seq<byte>, seq<byte>, seq<byte>, seq<byte>) -> Outcome<seq<byte>>)

  /** Points have one encoding, of 32 bytes, and the cipher opens what it sealed. */
  ghost predicate Sound(c: Suite) {
    && (forall p: Point :: |c.encode(p)| == POINT_BYTES && c.decode(c.encode(p)) == Encoded(p))
    && (forall k, n, a, p ::
          |c.seal(k, n, a, p)| == |p| + TAG_BYTES && c.open(k, n, a, c.seal(k, n, a, p)) == Returns(p))
  }

  function Flatten(parts: seq<seq<byte>>): seq<byte> {
    if parts == [] then [] else Flatten(parts[..|parts| - 1]) + parts[|parts| - 1]
  }

  lemma {:induction false} FlattenPrefix(parts: seq<seq<byte>>, k: nat)
    requires k <= |parts|
    ensures |Flatten(parts[..k])| <= |Flatten(parts)|
  {
    if k < |parts| {
      assert parts[..|parts| - 1][..k] == parts[..k];
      FlattenPrefix(parts[..|parts| - 1], k);
    } else {
      assert parts[..k] == parts;
    }
  }

  lemma FlattenNext(parts: seq<seq<byte>>, k: nat)
    requires k < |parts|
    ensures Flatten(parts[..k + 1]) == Flatten(parts[..k]) + parts[k]
  {
    assert parts[..k + 1][..k] == parts[..k];
  }

  method TotalLength(parts: seq<seq<byte>>) returns (n: nat)
    ensures n == |Flatten(parts)|
  {
    n := 0;
    for k := 0 to |parts|
      invariant n == |Flatten(parts[..k])|
    {
      FlattenNext(parts, k);
      n := n + |parts[k]|;
    }
    assert parts[..|parts|] == parts;
  }

  /** `concat`: one buffer, filled part by part. */
  method Concat(parts: seq<seq<byte>>) returns (out: array<byte>)
    ensures fresh(out) && out[..] == Flatten(parts)
  {
    var n := TotalLength(parts);
    out := new byte[n];
    var o := 0;
    for k := 0 to |parts|
      invariant o == |Flatten(parts[..k])| <= out.Length
      invariant out[..o] == Flatten(parts[..k])
    {
      FlattenNext(parts, k);
      FlattenPrefix(parts, k + 1);
      var p := parts[k];
      ghost var before := out[..o];
      forall i | 0 <= i < |p| {
        out[o + i] := p[i];
      }
      assert out[..o + |p|] == before + p;
      o := o + |p|;
    }
    assert parts[..|parts|] == parts && out[..o] == out[..];
  }

  datatype ParsedCiphertext = ParsedCiphertext(r: seq<byte>, nonce: seq<byte>, body: seq<byte>)

  function Render(p: ParsedCiphertext): string {
    PREFIX + Base64Url.Encode(p.r + p.nonce + p.body)
  }

  /** `parseCiphertext`. */
  function ParseCiphertext(c: Suite, text: string): Outcome<ParsedCiphertext> {
    if !(PREFIX <= text) then Throws
    else
      var raw :- Base64Url.Decode(text[|PREFIX|..]);
      if |raw| < POINT_BYTES + NONCE_BYTES + TAG_BYTES then Throws
      else
        var r := raw[..POINT_BYTES];
        var _ :- ParsePoint(c.decode(r));
        Returns(ParsedCiphertext(r, raw[POINT_BYTES..POINT_BYTES + NONCE_BYTES], raw[POINT_BYTES + NONCE_BYTES..]))
  }

  /** The parts have the lengths of the format and R decodes to a point other than the identity. */
  predicate WellFormed(c: Suite, p: ParsedCiphertext) {
    && |p.r| == POINT_BYTES && |p.nonce| == NONCE_BYTES && |p.body| >= TAG_BYTES
    && ParsePoint(c.decode(p.r)).Returns?
  }

  lemma Slices(r: seq<byte>, n: seq<byte>, b: seq<byte>)
    ensures (r + n + b)[..|r|] == r && (r + n + b)[|r|..|r| + |n|] == n && (r + n + b)[|r| + |n|..] == b
  {
  }

  lemma TextOfBytes(c: Suite, p: ParsedCiphertext, s: string)
    requires WellFormed(c, p) && Base64Url.Decode(s) == Returns(p.r + p.nonce + p.body)
    ensures ParseCiphertext(c, PREFIX + s) == Returns(p)
  {
    hide Base64Url.Decode, ParsePoint;
    Slices(p.r, p.nonce, p.body);
    assert (PREFIX + s)[|PREFIX|..] == s;
  }

  lemma BytesOfText(c: Suite, text: string)
    requires ParseCiphertext(c, text).Returns?
    ensures var p := ParseCiphertext(c, text).value;
            && WellFormed(c, p) && text == PREFIX + text[|PREFIX|..]
            && Base64Url.Decode(text[|PREFIX|..]) == Returns(p.r + p.nonce + p.body)
  {
    var raw := Base64Url.Decode(text[|PREFIX|..]).value;
    hide Base64Url.Decode, ParsePoint;
    var p := ParseCiphertext(c, text).value;
    assert p.r + p.nonce + p.body == raw;
  }

  /** Every well-formed ciphertext survives the way through its text. */
  lemma WireRoundTrip(c: Suite, p: ParsedCiphertext)
    requires WellFormed(c, p)
    ensures ParseCiphertext(c, Render(p)) == Returns(p)
  {
    hide Base64Url.Encode, Base64Url.Decode, ParseCiphertext;
    Base64Url.RoundTrip(p.r + p.nonce + p.body);
    TextOfBytes(c, p, Base64Url.Encode(p.r + p.nonce + p.body));
  }

  /** Whatever parses is well formed, and it is the text of what it parses to exactly
      if no spare bits are set in its last character. */
  lemma ParsedTexts(c: Suite, text: string)
    requires ParseCiphertext(c, text).Returns?
    ensures var p := ParseCiphertext(c, text).value;
            && WellFormed(c, p) && Base64Url.AllInAlphabet(text[|PREFIX|..])
            && (Render(p) == text <==> Base64Url.Canonical(text[|PREFIX|..]))
  {
    var (p, tail) := (ParseCiphertext(c, text).value, text[|PREFIX|..]);
    BytesOfText(c, text);
    Base64Url.CanonicalTexts(tail);
    hide Base64Url.Encode, Base64Url.Groups, Base64Url.Canonical, ParseCiphertext;
    if Render(p) != text {
      Base64Url.SameFront(PREFIX, Base64Url.Encode(p.r + p.nonce + p.body), tail);
    }
  }

  /** A ciphertext has a second text exactly if the bytes do not fill the last group of
      base64, which its body alone decides: R and the nonce have 44 bytes. */
  lemma SecondText(c: Suite, p: ParsedCiphertext)
    requires WellFormed(c, p)
    ensures (exists text :: text != Render(p) && ParseCiphertext(c, text) == Returns(p)) <==> |p.body| % 3 != 1
  {
    var raw := p.r + p.nonce + p.body;
    Base64Url.SecondText(raw);
    hide Base64Url.Encode, Base64Url.Decode, ParseCiphertext;
    if |raw| % 3 != 0 {
      var s :| s != Base64Url.Encode(raw) && Base64Url.Decode(s) == Returns(raw);
      TextOfBytes(c, p, s);
      Base64Url.SameFront(PREFIX, s, Base64Url.Encode(raw));
    } else {
      forall text | ParseCiphertext(c, text) == Returns(p) ensures text == Render(p) {
        BytesOfText(c, text);
      }
    }
  }

  // ----- Encryption on bytes -----

  function KeyMaterial(r: seq<byte>, k: seq<byte>): seq<byte> {
    r + k
  }

  function Aad(r: seq<byte>, address: string): seq<byte> {
    r + Utf8(address)
  }

  /** The authenticated data determine the ephemeral point and the address. */
  lemma AadDetermines(r: seq<byte>, address: string, r': seq<byte>, address': string)
    requires |r| == |r'|
    ensures Aad(r, address) == Aad(r', address') <==> r == r' && address == address'
  {
    if Aad(r, address) == Aad(r', address') {
      assert r == Aad(r, address)[..|r|] && r' == Aad(r', address')[..|r'|];
      assert Utf8(address) == Aad(r, address)[|r|..] && Utf8(address') == Aad(r', address')[|r'|..];
      Utf8Injective(address, address');
    }
  }

  /** `encryptOrder` with the ephemeral scalar e and a nonce. */
  function EncryptOrder(c: Suite, plaintext: string, publicKey: PointText, address: string, e: int, nonce: seq<byte>)
    : Outcome<string>
  {
    var y :- ParsePoint(publicKey);
    var rp :- Multiply(BASE, e);
    var kp :- Multiply(y, e);
    var (r, k) := (c.encode(rp), c.encode(kp));
    var body := c.seal(c.derive(KeyMaterial(r, k)), nonce, Aad(r, address), Utf8(plaintext));
    Returns(Render(ParsedCiphertext(r, nonce, body)))
  }

  /** `decryptWithSharedPoint`, up to the decoding of the plaintext. */
  function DecryptWithSharedPoint(c: Suite, text: string, sharedPoint: seq<byte>, address: string): Outcome<seq<byte>> {
    var p :- ParseCiphertext(c, text);
    c.open(c.derive(KeyMaterial(p.r, sharedPoint)), p.nonce, Aad(p.r, address), p.body)
  }

  /** An order encrypted to Y = y·G opens with y·R, the point the validators combine. */
  lemma OrderRoundTrip(c: Suite, plaintext: string, y: int, address: string, e: int, nonce: seq<byte>)
    requires Sound(c) && 0 < e < L && Scale(BASE, y) != ZERO && |nonce| == NONCE_BYTES
    ensures var text := EncryptOrder(c, plaintext, Encoded(Scale(BASE, y)), address, e, nonce);
            && text.Returns?
            && DecryptWithSharedPoint(c, text.value, c.encode(Scale(Scale(BASE, e), y)), address)
               == Returns(Utf8(plaintext))
  {
    CongUniqueIfZero(e);
    ScaleNonzero(BASE, e);
    SharedPoint(y, e);
    hide Scale, Render, ParseCiphertext, Utf8;
    var (r, k) := (c.encode(Scale(BASE, e)), c.encode(Scale(Scale(BASE, e), y)));
    var body := c.seal(c.derive(KeyMaterial(r, k)), nonce, Aad(r, address), Utf8(plaintext));
    WireRoundTrip(c, ParsedCiphertext(r, nonce, body));
  }

  /** This box opens with no other key material and no other authenticated data. */
  ghost predicate Binding(c: Suite, material: seq<byte>, nonce: seq<byte>, aad: seq<byte>, box: seq<byte>) {
    forall m, a :: c.open(c.derive(m), nonce, a, box).Returns? ==> m == material && a == aad
  }

  /** The key is made of R and the shared point, and R and the address are authenticated:
      if the box for these opens with nothing else, the ciphertext opens with the shared
      point and the user's address only. */
  lemma OnlySharedPointOpens(c: Suite, plaintext: string, y: int, address: string, e: int, nonce: seq<byte>,
                             k: seq<byte>, address': string)
    requires Sound(c) && 0 < e < L && Scale(BASE, y) != ZERO && |nonce| == NONCE_BYTES
    requires var (r, s) := (c.encode(Scale(BASE, e)), c.encode(Scale(Scale(BASE, e), y)));
             Binding(c, r + s, nonce, r + Utf8(address),
                     c.seal(c.derive(r + s), nonce, r + Utf8(address), Utf8(plaintext)))
    ensures var text := EncryptOrder(c, plaintext, Encoded(Scale(BASE, y)), address, e, nonce);
            && text.Returns?
            && (DecryptWithSharedPoint(c, text.value, k, address').Returns?
                <==> k == c.encode(Scale(Scale(BASE, e), y)) && address' == address)
  {
    OrderRoundTrip(c, plaintext, y, address, e, nonce);
    CongUniqueIfZero(e);
    ScaleNonzero(BASE, e);
    SharedPoint(y, e);
    hide Scale, Render, ParseCiphertext, Utf8;
    var (r, s) := (c.encode(Scale(BASE, e)), c.encode(Scale(Scale(BASE, e), y)));
    var box := c.seal(c.derive(r + s), nonce, r + Utf8(address), Utf8(plaintext));
    WireRoundTrip(c, ParsedCiphertext(r, nonce, box));
    assert KeyMaterial(r, k) == r + k && Aad(r, address') == r + Utf8(address');
    assert r + k == r + s ==> k == s by {
      assert (r + k)[|r|..] == k && (r + s)[|r|..] == s;
    }
    AadDetermines(r, address, r, address');
  }

  // ----- The assumption on the libraries can be met -----

  function Power256(k: nat): nat {
    if k == 0 then 1 else 256 * Power256(k - 1)
  }

  function Digits256(n: nat, k: nat): (r: seq<byte>)
    ensures |r| == k
  {
    if k == 0 then [] else Digits256(n / 256, k - 1) + [n % 256]
  }

  function Value256(b: seq<byte>): nat {
    if b == [] then 0 else 256 * Value256(b[..|b| - 1]) + b[|b| - 1]
  }

  lemma {:induction false} ValueOfDigits(n: nat, k: nat)
    requires n < Power256(k)
    ensures Value256(Digits256(n, k)) == n
  {
    if k > 0 {
      ValueOfDigits(n / 256, k - 1);
      var b := Digits256(n, k);
      assert b[..k - 1] == Digits256(n / 256, k - 1) && b[k - 1] == n % 256;
    }
  }

  function NoTag(): (r: seq<byte>)
    ensures |r| == TAG_BYTES
  {
    [0, 0, 0, 0, 0, 0, 0, 0, 0, 0, 0, 0, 0, 0, 0, 0]
  }

  function ExampleEncode(p: Point): seq<byte> {
    Digits256(p.log, POINT_BYTES)
  }

  function ExampleDecode(b: seq<byte>): PointText {
    if Value256(b) < L then Encoded(Element(Value256(b))) else NotAPoint
  }

  function ExampleSeal(k: seq<byte>, n: seq<byte>, a: seq<byte>, p: seq<byte>): seq<byte> {
    p + NoTag()
  }

  function ExampleOpen(k: seq<byte>, n: seq<byte>, a: seq<byte>, b: seq<byte>): Outcome<seq<byte>> {
    if |b| < TAG_BYTES then Throws else Returns(b[..|b| - TAG_BYTES])
  }

  lemma ExampleOpens(k: seq<byte>, n: seq<byte>, a: seq<byte>, p: seq<byte>)
    ensures |ExampleSeal(k, n, a, p)| == |p| + TAG_BYTES
    ensures ExampleOpen(k, n, a, ExampleSeal(k, n, a, p)) == Returns(p)
  {
    assert (p + NoTag())[..|p|] == p;
  }

  /** Libraries as `Sound` asks for exist, for every group order that fits 32 bytes. */
  lemma SoundSuiteExists()
    requires L <= Power256(POINT_BYTES)
    ensures exists c: Suite :: Sound(c)
  {
    var c := Suite(ExampleEncode, ExampleDecode, b => b, ExampleSeal, ExampleOpen);
    forall p: Point ensures |c.encode(p)| == POINT_BYTES && c.decode(c.encode(p)) == Encoded(p) {
      ValueOfDigits(p.log, POINT_BYTES);
    }
    hide ExampleSeal, ExampleOpen;
    forall k, n, a, p
      ensures |c.seal(k, n, a, p)| == |p| + TAG_BYTES && c.open(k, n, a, c.seal(k, n, a, p)) == Returns(p)
    {
      ExampleOpens(k, n, a, p);
    }
    assert Sound(c);
  }
}
