/** The ElGamal KEM with authenticated encryption that seals orders and key
    shares, with the encryption itself symbolic: a box opens with the shared
    point and the address it was made for, and with nothing else. */
module OrderCipher {
  import opened Residues
  import opened Lagrange
  import opened Outcomes
  import opened Group

  /** The authenticated part of a ciphertext. The key is derived from R and the
      shared point, and R and the address are authenticated with the plaintext. */
  datatype Body<+P> = Junk | Gcm(r: Point, key: Point, address: string, plain: P)

  /** A ciphertext text: one that does not parse, or an ephemeral point and a body. */
  datatype Ciphertext<+P> = Malformed | Wire(r: Point, body: Body<P>)

  /** `parseCiphertext`, as far as R is concerned: the identity is refused. */
  function ParseR<P>(ct: Ciphertext<P>): Outcome<Point> {
    if ct.Wire? && ct.r != ZERO then Returns(ct.r) else Throws
  }

  /** `encryptOrder` with the ephemeral scalar e. */
  function Encrypt<P>(plain: P, publicKey: PointText, address: string, e: int): Outcome<Ciphertext<P>> {
    var y :- ParsePoint(publicKey);
    var r :- Multiply(BASE, e);
    var k :- Multiply(y, e);
    Returns(Wire(r, Gcm(r, k, address, plain)))
  }

  /** `decryptWithSharedPoint`. */
  function Decrypt<P>(ct: Ciphertext<P>, k: Point, address: string): Outcome<P> {
    var r :- ParseR(ct);
    if ct.body.Gcm? && ct.body.r == r && ct.body.key == k && ct.body.address == address
    then Returns(ct.body.plain)
    else Throws
  }

  /** What was encrypted to Y = y·G is opened by the shared point y·R, and by no
      other point or address. */
  lemma OpensOnlyWithSharedPoint<P>(plain: P, y: int, address: string, e: int, k: Point, address': string)
    requires 0 < e < L && Scale(BASE, y) != ZERO
    ensures var ct := Encrypt(plain, Encoded(Scale(BASE, y)), address, e);
            && ct.Returns? && ParseR(ct.value) == Returns(Scale(BASE, e))
            && Decrypt(ct.value, k, address') ==
                 if k == Scale(Scale(BASE, e), y) && address' == address then Returns(plain) else Throws
  {
    var yp, r := Scale(BASE, y), Scale(BASE, e);
    CongUniqueIfZero(e);
    ScaleNonzero(BASE, e);
    SharedPoint(y, e);
  }

  /** e·(y·G) == y·(e·G). */
  lemma SharedPoint(y: int, e: int)
    ensures Scale(Scale(BASE, y), e) == Scale(Scale(BASE, e), y)
  {
    CongScale(e, Scale(BASE, y).log, 1 * y);
    CongScale(y, Scale(BASE, e).log, 1 * e);
    ModEq(Scale(BASE, y).log * e, y * e);
    ModEq(Scale(BASE, e).log * y, y * e);
  }
}
