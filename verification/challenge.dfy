/** The byte stream H(R, A, M) absorbs, shared verbatim by Sign and Verify. */
module ChallengeStream {
  import opened Bytes
  import opened Field
  import opened Edwards
  import opened Hashing
  import opened EdDSA

  /** The stream is the 160 bytes R.X ‖ R.Y ‖ A.X ‖ A.Y ‖ M, each a canonical 32-byte encoding. */
  lemma Layout(R: Point, A: Point, message: Element)
    ensures Concat(ChallengeData(R, A, message))
            == Encode(R.X) + Encode(R.Y) + Encode(A.X) + Encode(A.Y) + Encode(message)
    ensures |Concat(ChallengeData(R, A, message))| == 160
  {
    var d := ChallengeData(R, A, message);
    var d1, d2, d3, d4 := d[1..], d[2..], d[3..], d[4..];
    assert d4[1..] == [];
    assert Concat(d4) == Encode(message);
    assert d3[1..] == d4;
    assert Concat(d3) == Encode(A.Y) + Encode(message);
    assert d2[1..] == d3;
    assert Concat(d2) == Encode(A.X) + Encode(A.Y) + Encode(message);
    assert d1[1..] == d2;
    assert Concat(d1) == Encode(R.Y) + Encode(A.X) + Encode(A.Y) + Encode(message);
    assert d[1..] == d1;
  }

  /** Cutting the five 32-byte pieces back out of their concatenation. */
  lemma Pieces(a: Bytes32, b: Bytes32, c: Bytes32, d: Bytes32, e: Bytes32)
    ensures var s := a + b + c + d + e;
            s[0..32] == a && s[32..64] == b && s[64..96] == c && s[96..128] == d && s[128..160] == e
  {
  }

  /** The stream determines R, A and the message: two challenge computations that absorb the same
      bytes were asked about the same signature point, key and message. */
  lemma Binding(R: Point, A: Point, message: Element, R': Point, A': Point, message': Element)
    requires Concat(ChallengeData(R, A, message)) == Concat(ChallengeData(R', A', message'))
    ensures R == R' && A == A' && message == message'
  {
    Layout(R, A, message);
    Layout(R', A', message');
    Pieces(Encode(R.X), Encode(R.Y), Encode(A.X), Encode(A.Y), Encode(message));
    Pieces(Encode(R'.X), Encode(R'.Y), Encode(A'.X), Encode(A'.Y), Encode(message'));
    assert Encode(R.X) == Encode(R'.X) && Encode(R.Y) == Encode(R'.Y);
    assert Encode(A.X) == Encode(A'.X) && Encode(A.Y) == Encode(A'.Y);
    assert Encode(message) == Encode(message');
  }
}
