/** CBC and CFB128 over any block function, as whole messages and as sequences of calls. */
module AesModes {
  import opened Bytes

  const INVALID_INPUT_LENGTH := -0x0810
  const ENCRYPT := 1
  const DECRYPT := 0

  // ---------- CBC, section 6.2 of NIST SP 800-38A ----------

  function CbcEnc(e: BlockFn, iv: Block, x: seq<Byte>): (y: seq<Byte>)
    requires |x| % 16 == 0
    ensures |y| == |x|
    decreases |x|
  {
    if |x| == 0 then [] else
      var c := e(XorBlock(x[..16], iv));
      c + CbcEnc(e, c, x[16..])
  }

  function CbcDec(d: BlockFn, iv: Block, y: seq<Byte>): (x: seq<Byte>)
    requires |y| % 16 == 0
    ensures |x| == |y|
    decreases |y|
  {
    if |y| == 0 then [] else XorSeq(d(y[..16]), iv) + CbcDec(d, y[..16], y[16..])
  }

  /** The vector after a message: its last encrypted block. */
  function CbcIv(iv: Block, y: seq<Byte>): Block {
    if |y| < 16 then iv else y[|y| - 16..]
  }

  lemma {:induction false} CbcUndo(e: BlockFn, d: BlockFn, iv: Block, x: seq<Byte>)
    requires |x| % 16 == 0 && forall b: Block :: d(e(b)) == b
    ensures CbcDec(d, iv, CbcEnc(e, iv, x)) == x
    decreases |x|
  {
    hide Xor, XorSeq;
    if |x| != 0 {
      var c := e(XorBlock(x[..16], iv));
      CbcUndo(e, d, c, x[16..]);
      var y := CbcEnc(e, iv, x);
      assert y[..16] == c && y[16..] == CbcEnc(e, c, x[16..]);
      XorSeqUndo(x[..16], iv);
      assert x == x[..16] + x[16..];
    }
  }

  lemma CbcIvStep(iv: Block, c: Block, t: seq<Byte>)
    requires |t| % 16 == 0
    ensures CbcIv(iv, c + t) == CbcIv(c, t)
  {
    if |t| == 0 {
      assert c + t == c && c[0..] == c;
    } else {
      BehindFirst(c, t);
    }
  }

  lemma BehindFirst(c: Block, t: seq<Byte>)
    requires 16 <= |t|
    ensures (c + t)[|c + t| - 16..] == t[|t| - 16..]
  {
    var k := |t| - 16;
    assert (c + t)[16 + k..] == t[k..];
  }

  lemma CbcEncFirst(e: BlockFn, iv: Block, x: seq<Byte>)
    requires 16 <= |x| && |x| % 16 == 0
    ensures |x[16..]| % 16 == 0
    ensures var c := e(XorBlock(x[..16], iv)); CbcEnc(e, iv, x) == c + CbcEnc(e, c, x[16..])
  {
  }

  lemma CbcDecFirst(d: BlockFn, iv: Block, y: seq<Byte>)
    requires 16 <= |y| && |y| % 16 == 0
    ensures |y[16..]| % 16 == 0
    ensures CbcDec(d, iv, y) == XorSeq(d(y[..16]), iv) + CbcDec(d, y[..16], y[16..])
  {
  }

  /** The block before block i of an encrypted message: the vector before the first one. */
  function Before(iv: Block, y: seq<Byte>, i: nat): Block
    requires 16 * i <= |y|
  {
    if i == 0 then iv else y[16 * i - 16..16 * i]
  }

  /** Block i of the encrypted message is the cipher of the block that is, byte by byte, plain text added to the block before. */
  lemma {:induction false} CbcEncBlock(e: BlockFn, iv: Block, x: seq<Byte>, i: nat, b: Block)
    requires |x| % 16 == 0 && 16 * i + 16 <= |x|
    requires forall j :: 0 <= j < 16 ==> b[j] == Xor(x[16 * i + j], Before(iv, CbcEnc(e, iv, x), i)[j])
    ensures CbcEnc(e, iv, x)[16 * i..16 * i + 16] == e(b)
    decreases i
  {
    hide Xor, CbcEnc;
    CbcEncFirst(e, iv, x);
    var c := e(XorBlock(x[..16], iv));
    var y, t := CbcEnc(e, iv, x), CbcEnc(e, c, x[16..]);
    if i == 0 {
      assert b == XorBlock(x[..16], iv);
      assert y[..16] == c;
    } else {
      LaterBefore(iv, c, t, i);
      forall j | 0 <= j < 16
        ensures b[j] == Xor(x[16..][16 * (i - 1) + j], Before(c, t, i - 1)[j])
      {
        assert x[16..][16 * (i - 1) + j] == x[16 * i + j];
      }
      CbcEncBlock(e, c, x[16..], i - 1, b);
      LaterSlice(c, t, i);
    }
  }

  lemma LaterBefore(iv: Block, c: Block, t: seq<Byte>, i: nat)
    requires 0 < i && 16 * (i - 1) <= |t|
    ensures Before(iv, c + t, i) == Before(c, t, i - 1)
  {
  }

  lemma LaterSlice(c: Block, t: seq<Byte>, i: nat)
    requires 0 < i && 16 * i <= |t|
    ensures (c + t)[16 * i..16 * i + 16] == t[16 * (i - 1)..16 * (i - 1) + 16]
  {
  }

  lemma {:induction false} CbcDecBlock(d: BlockFn, iv: Block, y: seq<Byte>, i: nat)
    requires |y| % 16 == 0 && 16 * i + 16 <= |y|
    ensures CbcDec(d, iv, y)[16 * i..16 * i + 16] == XorSeq(d(y[16 * i..16 * i + 16]), Before(iv, y, i))
    decreases i
  {
    hide XorSeq, CbcDec, Before;
    CbcDecFirst(d, iv, y);
    var c: Block, r := y[..16], y[16..];
    var h := XorSeq(d(c), iv);
    if i == 0 {
      FirstBefore(iv, y);
      assert (h + CbcDec(d, c, r))[..16] == h;
    } else {
      CbcDecBlock(d, c, r, i - 1);
      assert y == c + r;
      LaterBefore(iv, c, r, i);
      LaterSlice(c, r, i);
      LaterSlice(h, CbcDec(d, c, r), i);
    }
  }

  lemma FirstBefore(iv: Block, y: seq<Byte>)
    ensures Before(iv, y, 0) == iv
  {
  }

  /** Byte k of the decrypted message: the deciphered block's byte added to the one of the block before. */
  lemma CbcDecByte(d: BlockFn, iv: Block, y: seq<Byte>, k: nat)
    requires |y| % 16 == 0 && k < |y|
    ensures var i, j := k / 16, k % 16;
      16 * i + 16 <= |y| && CbcDec(d, iv, y)[k] == Xor(d(y[16 * i..16 * i + 16])[j], Before(iv, y, i)[j])
  {
    hide Xor, CbcDec, Before;
    WholeBlock(|y|, k);
    CbcDecBlock(d, iv, y, k / 16);
    assert CbcDec(d, iv, y)[k] == CbcDec(d, iv, y)[16 * (k / 16)..16 * (k / 16) + 16][k % 16];
  }

  lemma WholeBlock(n: nat, k: nat)
    requires n % 16 == 0 && k < n
    ensures 16 * (k / 16) + 16 <= n
  {
  }

  lemma EmptyCbc(e: BlockFn, iv: Block)
    ensures CbcEnc(e, iv, []) == [] && CbcDec(e, iv, []) == [] && CbcIv(iv, []) == iv
  {
  }

  lemma SliceJoin(x: seq<Byte>, x': seq<Byte>)
    requires 16 <= |x|
    ensures (x + x')[..16] == x[..16] && (x + x')[16..] == x[16..] + x'
  {
  }

  /** Encrypting in two calls that pass the vector on is encrypting in one. */
  lemma {:induction false} CbcEncSplit(e: BlockFn, iv: Block, x: seq<Byte>, x': seq<Byte>)
    requires |x| % 16 == 0 && |x'| % 16 == 0
    ensures var y := CbcEnc(e, iv, x);
      var y' := CbcEnc(e, CbcIv(iv, y), x');
      |x + x'| % 16 == 0 && CbcEnc(e, iv, x + x') == y + y' && CbcIv(iv, y + y') == CbcIv(CbcIv(iv, y), y')
    decreases |x|
  {
    hide XorSeq, CbcEnc, CbcIv;
    WholeSum(|x|, |x'|);
    if |x| == 0 {
      EmptyCbc(e, iv);
      assert x == [] && x + x' == x';
    } else {
      var c := e(XorBlock(x[..16], iv));
      SliceJoin(x, x');
      CbcEncFirst(e, iv, x);
      CbcEncFirst(e, iv, x + x');
      CbcEncSplit(e, c, x[16..], x');
      var t := CbcEnc(e, c, x[16..]);
      CbcIvStep(iv, c, t);
      var t' := CbcEnc(e, CbcIv(c, t), x');
      WholeSum(|t|, |t'|);
      CbcIvStep(iv, c, t + t');
      Assoc(c, t, t');
    }
  }

  lemma Assoc(a: seq<Byte>, b: seq<Byte>, c: seq<Byte>)
    ensures a + (b + c) == (a + b) + c
  {
  }

  lemma {:induction false} CbcDecSplit(d: BlockFn, iv: Block, y: seq<Byte>, y': seq<Byte>)
    requires |y| % 16 == 0 && |y'| % 16 == 0
    ensures |y + y'| % 16 == 0 && CbcDec(d, iv, y + y') == CbcDec(d, iv, y) + CbcDec(d, CbcIv(iv, y), y')
    ensures CbcIv(iv, y + y') == CbcIv(CbcIv(iv, y), y')
    decreases |y|
  {
    hide XorSeq, CbcDec, CbcIv;
    WholeSum(|y|, |y'|);
    if |y| == 0 {
      EmptyCbc(d, iv);
      assert y == [] && y + y' == y';
    } else {
      var c: Block, r := y[..16], y[16..];
      SliceJoin(y, y');
      CbcDecFirst(d, iv, y);
      CbcDecFirst(d, iv, y + y');
      CbcDecSplit(d, c, r, y');
      assert y == c + r;
      CbcIvStep(iv, c, r);
      Assoc(c, r, y');
      WholeSum(|r|, |y'|);
      CbcIvStep(iv, c, r + y');
      Assoc(XorSeq(d(c), iv), CbcDec(d, c, r), CbcDec(d, CbcIv(c, r), y'));
    }
  }

  // ---------- sequences of calls ----------

  function Joined(parts: seq<seq<Byte>>): seq<Byte> {
    if |parts| == 0 then [] else parts[0] + Joined(parts[1..])
  }

  ghost predicate WholeBlocks(parts: seq<seq<Byte>>) {
    forall i :: 0 <= i < |parts| ==> |parts[i]| % 16 == 0
  }

  lemma {:induction false} JoinedWhole(parts: seq<seq<Byte>>)
    requires WholeBlocks(parts)
    ensures |Joined(parts)| % 16 == 0
  {
    if |parts| != 0 {
      assert WholeBlocks(parts[1..]);
      JoinedWhole(parts[1..]);
      WholeSum(|parts[0]|, |Joined(parts[1..])|);
    }
  }

  lemma WholeSum(a: nat, b: nat)
    requires a % 16 == 0 && b % 16 == 0
    ensures (a + b) % 16 == 0
  {
  }

  /** Output and vector of a sequence of encrypting calls. */
  ghost function CbcEncCalls(e: BlockFn, iv: Block, parts: seq<seq<Byte>>): (seq<Byte>, Block)
    requires WholeBlocks(parts)
    decreases |parts|
  {
    if |parts| == 0 then ([], iv) else
      assert |parts[0]| % 16 == 0;
      var y := CbcEnc(e, iv, parts[0]);
      var rest := CbcEncCalls(e, CbcIv(iv, y), parts[1..]);
      (y + rest.0, rest.1)
  }

  ghost function CbcDecCalls(d: BlockFn, iv: Block, parts: seq<seq<Byte>>): (seq<Byte>, Block)
    requires WholeBlocks(parts)
    decreases |parts|
  {
    if |parts| == 0 then ([], iv) else
      assert |parts[0]| % 16 == 0;
      var rest := CbcDecCalls(d, CbcIv(iv, parts[0]), parts[1..]);
      (CbcDec(d, iv, parts[0]) + rest.0, rest.1)
  }

  /** Any sequence of calls gives the bytes and the vector of one call on the joined message. */
  lemma {:induction false} CbcEncCallsJoin(e: BlockFn, iv: Block, parts: seq<seq<Byte>>)
    requires WholeBlocks(parts)
    ensures |Joined(parts)| % 16 == 0
    ensures var y := CbcEnc(e, iv, Joined(parts)); CbcEncCalls(e, iv, parts) == (y, CbcIv(iv, y))
    decreases |parts|
  {
    hide CbcEnc, CbcIv;
    JoinedWhole(parts);
    if |parts| == 0 {
      EmptyCbc(e, iv);
    } else {
      assert |parts[0]| % 16 == 0 && WholeBlocks(parts[1..]);
      JoinedWhole(parts[1..]);
      var y := CbcEnc(e, iv, parts[0]);
      CbcEncCallsJoin(e, CbcIv(iv, y), parts[1..]);
      CbcEncSplit(e, iv, parts[0], Joined(parts[1..]));
    }
  }

  lemma {:induction false} CbcDecCallsJoin(d: BlockFn, iv: Block, parts: seq<seq<Byte>>)
    requires WholeBlocks(parts)
    ensures |Joined(parts)| % 16 == 0
    ensures CbcDecCalls(d, iv, parts) == (CbcDec(d, iv, Joined(parts)), CbcIv(iv, Joined(parts)))
    decreases |parts|
  {
    hide CbcDec, CbcIv;
    JoinedWhole(parts);
    if |parts| == 0 {
      EmptyCbc(d, iv);
    } else {
      assert |parts[0]| % 16 == 0 && WholeBlocks(parts[1..]);
      JoinedWhole(parts[1..]);
      CbcDecCallsJoin(d, CbcIv(iv, parts[0]), parts[1..]);
      CbcDecSplit(d, iv, parts[0], Joined(parts[1..]));
    }
  }

  /**
   * A message encrypted by any sequence of calls and decrypted by any other, from the same vector, comes back, and
   * both sides end with the same vector.
   */
  lemma CbcRoundTrip(e: BlockFn, d: BlockFn, iv: Block, parts: seq<seq<Byte>>, others: seq<seq<Byte>>)
    requires forall b: Block :: d(e(b)) == b
    requires WholeBlocks(parts) && WholeBlocks(others) && Joined(others) == CbcEncCalls(e, iv, parts).0
    ensures CbcDecCalls(d, iv, others) == (Joined(parts), CbcEncCalls(e, iv, parts).1)
  {
    hide CbcEnc, CbcDec, CbcIv;
    CbcEncCallsJoin(e, iv, parts);
    CbcDecCallsJoin(d, iv, others);
    CbcUndo(e, d, iv, Joined(parts));
  }

  // ---------- CFB128, section 6.3 of NIST SP 800-38A ----------

  /** The vector and the offset in it. */
  datatype Cfb = Cfb(iv: Block, off: nat)

  ghost predicate ValidCfb(s: Cfb) {
    s.off < 16
  }

  /** The vector in use: at offset zero it is encrypted first. */
  function Current(e: BlockFn, s: Cfb): Block {
    if s.off == 0 then e(s.iv) else s.iv
  }

  /** The byte c of encrypted text takes its place in the vector. */
  function Feed(e: BlockFn, s: Cfb, c: Byte): (t: Cfb)
    requires ValidCfb(s)
    ensures ValidCfb(t)
  {
    Cfb(Current(e, s)[s.off := c], (s.off + 1) % 16)
  }

  /** The state after encrypted text y. */
  function FeedAll(e: BlockFn, s: Cfb, y: seq<Byte>): (t: Cfb)
    requires ValidCfb(s)
    ensures ValidCfb(t)
    decreases |y|
  {
    if |y| == 0 then s else Feed(e, FeedAll(e, s, y[..|y| - 1]), y[|y| - 1])
  }

  function CfbEnc(e: BlockFn, s: Cfb, x: seq<Byte>): (y: seq<Byte>)
    requires ValidCfb(s)
    ensures |y| == |x|
    decreases |x|
  {
    if |x| == 0 then [] else
      var y := CfbEnc(e, s, x[..|x| - 1]);
      var t := FeedAll(e, s, y);
      y + [Xor(Current(e, t)[t.off], x[|x| - 1])]
  }

  function CfbDec(e: BlockFn, s: Cfb, y: seq<Byte>): (x: seq<Byte>)
    requires ValidCfb(s)
    ensures |x| == |y|
    decreases |y|
  {
    if |y| == 0 then [] else
      var t := FeedAll(e, s, y[..|y| - 1]);
      CfbDec(e, s, y[..|y| - 1]) + [Xor(y[|y| - 1], Current(e, t)[t.off])]
  }

  /** Decryption from the same state gives the text back. */
  lemma {:induction false} CfbUndo(e: BlockFn, s: Cfb, x: seq<Byte>)
    requires ValidCfb(s)
    ensures CfbDec(e, s, CfbEnc(e, s, x)) == x
    decreases |x|
  {
    hide Xor, FeedAll;
    if |x| != 0 {
      var x0 := x[..|x| - 1];
      CfbUndo(e, s, x0);
      var y := CfbEnc(e, s, x);
      assert y[..|y| - 1] == CfbEnc(e, s, x0);
      var t := FeedAll(e, s, CfbEnc(e, s, x0));
      XorUndo(Current(e, t)[t.off], x[|x| - 1]);
      XorUndo(x[|x| - 1], Current(e, t)[t.off]);
      XorComm(Current(e, t)[t.off], x[|x| - 1]);
      assert x == x0 + [x[|x| - 1]];
    }
  }

  lemma {:induction false} FeedAppend(e: BlockFn, s: Cfb, y: seq<Byte>, y': seq<Byte>)
    requires ValidCfb(s)
    ensures FeedAll(e, s, y + y') == FeedAll(e, FeedAll(e, s, y), y')
    decreases |y'|
  {
    hide Feed;
    if |y'| == 0 {
      assert y + y' == y;
    } else {
      var r := y'[..|y'| - 1];
      assert (y + y')[..|y + y'| - 1] == y + r;
      FeedAppend(e, s, y, r);
    }
  }

  /** Encrypting in two calls that pass the state on is encrypting in one, whatever the lengths. */
  lemma {:induction false} CfbEncSplit(e: BlockFn, s: Cfb, x: seq<Byte>, x': seq<Byte>)
    requires ValidCfb(s)
    ensures var y := CfbEnc(e, s, x);
      CfbEnc(e, s, x + x') == y + CfbEnc(e, FeedAll(e, s, y), x')
    decreases |x'|
  {
    hide Xor, FeedAll, Current;
    if |x'| == 0 {
      assert x + x' == x;
      assert CfbEnc(e, FeedAll(e, s, CfbEnc(e, s, x)), x') == [];
    } else {
      var r := x'[..|x'| - 1];
      assert (x + x')[..|x + x'| - 1] == x + r;
      CfbEncSplit(e, s, x, r);
      var y := CfbEnc(e, s, x);
      var t := CfbEnc(e, FeedAll(e, s, y), r);
      FeedAppend(e, s, y, t);
    }
  }

  lemma {:induction false} CfbDecSplit(e: BlockFn, s: Cfb, y: seq<Byte>, y': seq<Byte>)
    requires ValidCfb(s)
    ensures CfbDec(e, s, y + y') == CfbDec(e, s, y) + CfbDec(e, FeedAll(e, s, y), y')
    decreases |y'|
  {
    hide Xor, FeedAll, Current;
    if |y'| == 0 {
      assert y + y' == y;
      assert CfbDec(e, FeedAll(e, s, y), y') == [];
    } else {
      var r := y'[..|y'| - 1];
      assert (y + y')[..|y + y'| - 1] == y + r;
      CfbDecSplit(e, s, y, r);
      FeedAppend(e, s, y, r);
    }
  }

  /** Output and state of a sequence of calls. */
  ghost function CfbEncCalls(e: BlockFn, s: Cfb, parts: seq<seq<Byte>>): (seq<Byte>, Cfb)
    requires ValidCfb(s)
    decreases |parts|
  {
    if |parts| == 0 then ([], s) else
      var y := CfbEnc(e, s, parts[0]);
      var rest := CfbEncCalls(e, FeedAll(e, s, y), parts[1..]);
      (y + rest.0, rest.1)
  }

  ghost function CfbDecCalls(e: BlockFn, s: Cfb, parts: seq<seq<Byte>>): (seq<Byte>, Cfb)
    requires ValidCfb(s)
    decreases |parts|
  {
    if |parts| == 0 then ([], s) else
      var rest := CfbDecCalls(e, FeedAll(e, s, parts[0]), parts[1..]);
      (CfbDec(e, s, parts[0]) + rest.0, rest.1)
  }

  lemma {:induction false} CfbEncCallsJoin(e: BlockFn, s: Cfb, parts: seq<seq<Byte>>)
    requires ValidCfb(s)
    ensures var y := CfbEnc(e, s, Joined(parts)); CfbEncCalls(e, s, parts) == (y, FeedAll(e, s, y))
    decreases |parts|
  {
    hide CfbEnc, FeedAll;
    if |parts| == 0 {
      EmptyCfb(e, s);
    } else {
      var y := CfbEnc(e, s, parts[0]);
      var t := FeedAll(e, s, y);
      CfbEncCallsJoin(e, t, parts[1..]);
      CfbEncSplit(e, s, parts[0], Joined(parts[1..]));
      FeedAppend(e, s, y, CfbEnc(e, t, Joined(parts[1..])));
    }
  }

  lemma EmptyCfb(e: BlockFn, s: Cfb)
    requires ValidCfb(s)
    ensures CfbEnc(e, s, []) == [] && CfbDec(e, s, []) == [] && FeedAll(e, s, []) == s
  {
  }

  lemma {:induction false} CfbDecCallsJoin(e: BlockFn, s: Cfb, parts: seq<seq<Byte>>)
    requires ValidCfb(s)
    ensures CfbDecCalls(e, s, parts) == (CfbDec(e, s, Joined(parts)), FeedAll(e, s, Joined(parts)))
    decreases |parts|
  {
    hide CfbDec, FeedAll;
    if |parts| == 0 {
      EmptyCfb(e, s);
    } else {
      CfbDecCallsJoin(e, FeedAll(e, s, parts[0]), parts[1..]);
      CfbDecSplit(e, s, parts[0], Joined(parts[1..]));
      FeedAppend(e, s, parts[0], Joined(parts[1..]));
    }
  }

  /**
   * A message encrypted by any sequence of calls and decrypted by any other, of any lengths, from the same vector and
   * offset, comes back, and both sides end with the same vector and offset.
   */
  lemma CfbRoundTrip(e: BlockFn, s: Cfb, parts: seq<seq<Byte>>, others: seq<seq<Byte>>)
    requires ValidCfb(s) && Joined(others) == CfbEncCalls(e, s, parts).0
    ensures CfbDecCalls(e, s, others) == (Joined(parts), CfbEncCalls(e, s, parts).1)
  {
    hide CfbEnc, CfbDec, FeedAll;
    CfbEncCallsJoin(e, s, parts);
    CfbDecCallsJoin(e, s, others);
    CfbUndo(e, s, Joined(parts));
  }

  /** The mode as the standard writes it: each block of text under the encrypted block before it. */
  function CfbBlocks(e: BlockFn, iv: Block, x: seq<Byte>): (y: seq<Byte>)
    ensures |y| == |x|
    decreases |x|
  {
    if |x| <= 16 then XorSeq(e(iv)[..|x|], x)
    else
      var c := XorSeq(e(iv), x[..16]);
      c + CfbBlocks(e, c, x[16..])
  }

  /** Byte k of that: a byte of the encrypted block before, added to the text. */
  lemma {:induction false} CfbBlocksByte(e: BlockFn, iv: Block, x: seq<Byte>, k: nat)
    requires k < |x|
    ensures var y := CfbBlocks(e, iv, x);
      16 * (k / 16) <= |y| && y[k] == Xor(e(Before(iv, y, k / 16))[k % 16], x[k])
    decreases k
  {
    hide Xor, Before;
    var y := CfbBlocks(e, iv, x);
    FirstBefore(iv, y);
    if k >= 16 {
      var c: Block := XorSeq(e(iv), x[..16]);
      CfbBlocksByte(e, c, x[16..], k - 16);
      LaterBefore(iv, c, CfbBlocks(e, c, x[16..]), k / 16);
    }
  }

  /** Within a block that starts at offset zero: the text so far and the vector, its rest still key stream. */
  ghost predicate InBlock(e: BlockFn, iv: Block, x: seq<Byte>)
    requires |x| <= 16
  {
    var k, y := e(iv), CfbEnc(e, Cfb(iv, 0), x);
    var t := FeedAll(e, Cfb(iv, 0), y);
    y == XorSeq(k[..|x|], x) && t.off == |x| % 16 && (0 < |x| ==> t.iv == y + k[|x|..])
  }

  lemma {:induction false} WithinBlock(e: BlockFn, iv: Block, x: seq<Byte>)
    requires |x| <= 16
    ensures InBlock(e, iv, x)
    decreases |x|
  {
    hide InBlock;
    if |x| == 0 {
      BlockStart(e, iv, x);
    } else {
      WithinBlock(e, iv, x[..|x| - 1]);
      WithinStep(e, iv, x, x[..|x| - 1]);
    }
  }

  lemma BlockStart(e: BlockFn, iv: Block, x: seq<Byte>)
    requires |x| == 0
    ensures InBlock(e, iv, x)
  {
  }

  lemma WithinStep(e: BlockFn, iv: Block, x: seq<Byte>, r: seq<Byte>)
    requires 0 < |x| <= 16 && r == x[..|x| - 1] && InBlock(e, iv, r)
    ensures InBlock(e, iv, x)
  {
    hide Xor, XorSeq, FeedAll, CfbEnc;
    var k, s := e(iv), Cfb(iv, 0);
    var y0 := CfbEnc(e, s, r);
    var t := FeedAll(e, s, y0);
    if |r| == 0 {
      EmptyCfb(e, s);
      assert r == [] && y0 + k[0..] == k;
    }
    assert Current(e, t) == y0 + k[|r|..];
    var c := Xor(k[|r|], x[|r|]);
    LastByte(e, s, x);
    assert CfbEnc(e, s, x) == y0 + [c];
    FedOne(e, s, y0, c);
    LastOfPrefix(k, x, r);
  }

  lemma LastByte(e: BlockFn, s: Cfb, x: seq<Byte>)
    requires ValidCfb(s) && 0 < |x|
    ensures var y := CfbEnc(e, s, x[..|x| - 1]);
      var t := FeedAll(e, s, y);
      CfbEnc(e, s, x) == y + [Xor(Current(e, t)[t.off], x[|x| - 1])]
  {
    hide Xor, FeedAll;
  }

  lemma LastOfPrefix(k: Block, x: seq<Byte>, r: seq<Byte>)
    requires 0 < |x| <= 16 && r == x[..|x| - 1]
    ensures XorSeq(k[..|r|], r) + [Xor(k[|r|], x[|r|])] == XorSeq(k[..|x|], x)
    ensures (XorSeq(k[..|r|], r) + k[|r|..])[|r| := Xor(k[|r|], x[|r|])] == XorSeq(k[..|x|], x) + k[|x|..]
  {
    hide Xor;
  }

  lemma FedOne(e: BlockFn, s: Cfb, y: seq<Byte>, c: Byte)
    requires ValidCfb(s)
    ensures FeedAll(e, s, y + [c]) == Feed(e, FeedAll(e, s, y), c)
  {
    assert (y + [c])[..|y|] == y;
  }

  /** Started at offset zero, the byte-wise form is the mode of the standard. */
  lemma {:induction false} CfbIsStandard(e: BlockFn, iv: Block, x: seq<Byte>)
    ensures CfbEnc(e, Cfb(iv, 0), x) == CfbBlocks(e, iv, x)
    decreases |x|
  {
    hide Xor, XorSeq, CfbEnc, FeedAll;
    if |x| <= 16 {
      WithinBlock(e, iv, x);
    } else {
      var b := x[..16];
      WithinBlock(e, iv, b);
      assert e(iv)[..16] == e(iv) && e(iv)[16..] == [];
      var c := XorSeq(e(iv), b);
      assert c + [] == c;
      assert FeedAll(e, Cfb(iv, 0), c) == Cfb(c, 0);
      assert x == b + x[16..];
      CfbEncSplit(e, Cfb(iv, 0), b, x[16..]);
      CfbIsStandard(e, c, x[16..]);
    }
  }

  // ---------- the operations ----------

  lemma OneMore(x: seq<Byte>, i: nat)
    requires i < |x|
    ensures x[..i + 1] == x[..i] + [x[i]] && x[..i + 1][..i] == x[..i] && x[i..i + 1] == [x[i]]
  {
  }

  lemma PutOne(s: seq<Byte>, i: nat, c: Byte)
    requires i < |s|
    ensures s[i := c] == Splice(s, i, [c])
  {
  }

  method CfbEncrypt(e: BlockFn, length: nat, ivOff: nat, iv: array<Byte>, inp: array<Byte>, inOff: nat,
                    out: array<Byte>, outOff: nat)
    returns (n: nat)
    requires iv.Length == 16 && ivOff < 16 && iv != inp && iv != out
    requires inOff + length <= inp.Length && outOff + length <= out.Length && (inp != out || inOff == outOff)
    modifies iv, out
    ensures n < 16
    ensures var s, x := Cfb(old(iv[..]), ivOff), old(inp[inOff..inOff + length]);
      && out[..] == Splice(old(out[..]), outOff, CfbEnc(e, s, x))
      && Cfb(iv[..], n) == FeedAll(e, s, CfbEnc(e, s, x))
  {
    hide Xor, Splice, CfbEnc, FeedAll, Midway, Remains;
    n := ivOff;
    ghost var s, x, was := Cfb(iv[..], ivOff), inp[inOff..inOff + length], out[..];
    MidwayStart(x, was, outOff, inp[..], inOff);
    EmptyCfb(e, s);
    assert x[..0] == [];
    for i := 0 to length
      invariant n < 16
      invariant Midway(x, was, out[..], outOff, inp[..], inOff, i, CfbEnc(e, s, x[..i]))
      invariant Cfb(iv[..], n) == FeedAll(e, s, CfbEnc(e, s, x[..i]))
    {
      ghost var t, y := Cfb(iv[..], n), CfbEnc(e, s, x[..i]);
      if n == 0 {
        var c := e(iv[..]);
        StoreBlock(iv, c);
      }
      assert iv[..] == Current(e, t);
      var c := Xor(iv[n], inp[inOff + i]);
      ghost var now := out[..];
      MidwayStep(x, was, now, outOff, inp[..], inOff, i, y, [c]);
      assert inp[inOff + i..inOff + i + 1][0] == x[i..i + 1][0];
      OneMore(x, i);
      LastByte(e, s, x[..i + 1]);
      PutOne(now, outOff + i, c);
      FedOne(e, s, y, c);
      out[outOff + i] := c;
      iv[n] := c;
      n := (n + 1) % 16;
    }
    assert x[..length] == x;
    MidwayEnd(x, was, out[..], outOff, inp[..], inOff, CfbEnc(e, s, x));
  }

  method StoreBlock(iv: array<Byte>, c: Block)
    requires iv.Length == 16
    modifies iv
    ensures iv[..] == c
  {
    for i := 0 to 16
      invariant forall j :: 0 <= j < i ==> iv[j] == c[j]
    {
      iv[i] := c[i];
    }
  }

  lemma LastPlain(e: BlockFn, s: Cfb, y: seq<Byte>)
    requires ValidCfb(s) && 0 < |y|
    ensures var t := FeedAll(e, s, y[..|y| - 1]);
      && CfbDec(e, s, y) == CfbDec(e, s, y[..|y| - 1]) + [Xor(y[|y| - 1], Current(e, t)[t.off])]
      && FeedAll(e, s, y) == Feed(e, t, y[|y| - 1])
  {
    hide Xor;
  }

  method CfbDecrypt(e: BlockFn, length: nat, ivOff: nat, iv: array<Byte>, inp: array<Byte>, inOff: nat,
                    out: array<Byte>, outOff: nat)
    returns (n: nat)
    requires iv.Length == 16 && ivOff < 16 && iv != inp && iv != out
    requires inOff + length <= inp.Length && outOff + length <= out.Length && (inp != out || inOff == outOff)
    modifies iv, out
    ensures n < 16
    ensures var s, y := Cfb(old(iv[..]), ivOff), old(inp[inOff..inOff + length]);
      && out[..] == Splice(old(out[..]), outOff, CfbDec(e, s, y))
      && Cfb(iv[..], n) == FeedAll(e, s, y)
  {
    hide Xor, Splice, CfbDec, FeedAll, Midway, Remains;
    n := ivOff;
    ghost var s, y, was := Cfb(iv[..], ivOff), inp[inOff..inOff + length], out[..];
    MidwayStart(y, was, outOff, inp[..], inOff);
    EmptyCfb(e, s);
    assert y[..0] == [];
    for i := 0 to length
      invariant n < 16
      invariant Midway(y, was, out[..], outOff, inp[..], inOff, i, CfbDec(e, s, y[..i]))
      invariant Cfb(iv[..], n) == FeedAll(e, s, y[..i])
    {
      ghost var t := Cfb(iv[..], n);
      if n == 0 {
        var c := e(iv[..]);
        StoreBlock(iv, c);
      }
      assert iv[..] == Current(e, t);
      var c := inp[inOff + i];
      var p := Xor(c, iv[n]);
      ghost var now := out[..];
      MidwayStep(y, was, now, outOff, inp[..], inOff, i, CfbDec(e, s, y[..i]), [p]);
      assert inp[inOff + i..inOff + i + 1][0] == y[i..i + 1][0];
      OneMore(y, i);
      LastPlain(e, s, y[..i + 1]);
      PutOne(now, outOff + i, p);
      out[outOff + i] := p;
      iv[n] := c;
      n := (n + 1) % 16;
    }
    assert y[..length] == y;
    MidwayEnd(y, was, out[..], outOff, inp[..], inOff, CfbDec(e, s, y));
  }

  /** aes_crypt_cfb128. */
  method CryptCfb128(e: BlockFn, mode: int, length: nat, ivOff: nat, iv: array<Byte>, inp: array<Byte>, inOff: nat,
                     out: array<Byte>, outOff: nat)
    returns (n: nat)
    requires iv.Length == 16 && ivOff < 16 && iv != inp && iv != out
    requires inOff + length <= inp.Length && outOff + length <= out.Length && (inp != out || inOff == outOff)
    modifies iv, out
    ensures n < 16
    ensures var s, x := Cfb(old(iv[..]), ivOff), old(inp[inOff..inOff + length]);
      if mode == DECRYPT then
        out[..] == Splice(old(out[..]), outOff, CfbDec(e, s, x)) && Cfb(iv[..], n) == FeedAll(e, s, x)
      else
        out[..] == Splice(old(out[..]), outOff, CfbEnc(e, s, x)) && Cfb(iv[..], n) == FeedAll(e, s, CfbEnc(e, s, x))
  {
    hide CfbDec, CfbEnc, FeedAll, Splice;
    if mode == DECRYPT {
      n := CfbDecrypt(e, length, ivOff, iv, inp, inOff, out, outOff);
    } else {
      n := CfbEncrypt(e, length, ivOff, iv, inp, inOff, out, outOff);
    }
  }

  // ---------- CBC over buffers ----------

  /** One block exclusive-ored with the vector, written where it was read or to another buffer. */
  method XorInto(inp: array<Byte>, inAt: nat, iv: array<Byte>, out: array<Byte>, outAt: nat)
    requires iv.Length == 16 && iv != out && inAt + 16 <= inp.Length && outAt + 16 <= out.Length
    requires inp != out || inAt == outAt
    modifies out
    ensures out[..] == Splice(old(out[..]), outAt, XorSeq(old(inp[inAt..inAt + 16]), iv[..]))
  {
    hide Xor;
    ghost var x, v, was := inp[inAt..inAt + 16], iv[..], out[..];
    for i := 0 to 16
      invariant forall j :: 0 <= j < out.Length && !(outAt <= j < outAt + i) ==> out[j] == was[j]
      invariant forall j :: outAt <= j < outAt + i ==> out[j] == Xor(x[j - outAt], v[j - outAt])
      invariant forall j :: inAt + i <= j < inAt + 16 ==> inp[j] == x[j - inAt]
    {
      out[outAt + i] := Xor(inp[inAt + i], iv[i]);
    }
    assert out[..] == Splice(was, outAt, XorSeq(x, v));
  }

  /** The block function applied to a block of a buffer, written to a block of another or of the same. */
  method Ecb(f: BlockFn, inp: array<Byte>, inAt: nat, out: array<Byte>, outAt: nat)
    requires inAt + 16 <= inp.Length && outAt + 16 <= out.Length
    modifies out
    ensures out[..] == Splice(old(out[..]), outAt, f(old(inp[inAt..inAt + 16])))
  {
    var c := f(inp[inAt..inAt + 16]);
    for i := 0 to 16
      invariant forall j :: 0 <= j < out.Length && !(outAt <= j < outAt + i) ==> out[j] == old(out[j])
      invariant forall j :: outAt <= j < outAt + i ==> out[j] == c[j - outAt]
    {
      out[outAt + i] := c[i];
    }
  }

  lemma SpliceOver(s: seq<Byte>, at: nat, a: seq<Byte>, b: seq<Byte>)
    requires at + |a| <= |s| && |a| == |b|
    ensures Splice(Splice(s, at, a), at, b) == Splice(s, at, b) && Splice(s, at, a)[at..at + |a|] == a
  {
  }

  method EncryptOne(e: BlockFn, iv: array<Byte>, inp: array<Byte>, inAt: nat, out: array<Byte>, outAt: nat)
    requires iv.Length == 16 && iv != inp && iv != out
    requires inAt + 16 <= inp.Length && outAt + 16 <= out.Length && (inp != out || inAt == outAt)
    modifies iv, out
    ensures var c := e(XorSeq(old(inp[inAt..inAt + 16]), old(iv[..])));
      out[..] == Splice(old(out[..]), outAt, c) && iv[..] == c
  {
    hide XorSeq, Splice;
    ghost var was, m := out[..], XorSeq(inp[inAt..inAt + 16], iv[..]);
    XorInto(inp, inAt, iv, out, outAt);
    SpliceOver(was, outAt, m, e(m));
    Ecb(e, out, outAt, out, outAt);
    SpliceOver(was, outAt, e(m), m);
    var c: Block := out[outAt..outAt + 16];
    StoreBlock(iv, c);
  }

  method DecryptOne(d: BlockFn, iv: array<Byte>, inp: array<Byte>, inAt: nat, out: array<Byte>, outAt: nat)
    requires iv.Length == 16 && iv != inp && iv != out
    requires inAt + 16 <= inp.Length && outAt + 16 <= out.Length && (inp != out || inAt == outAt)
    modifies iv, out
    ensures var y := old(inp[inAt..inAt + 16]);
      out[..] == Splice(old(out[..]), outAt, XorSeq(d(y), old(iv[..]))) && iv[..] == y
  {
    hide XorSeq, Splice;
    var temp: Block := inp[inAt..inAt + 16];
    ghost var was := out[..];
    Ecb(d, inp, inAt, out, outAt);
    SpliceOver(was, outAt, d(temp), XorSeq(d(temp), iv[..]));
    XorInto(out, outAt, iv, out, outAt);
    StoreBlock(iv, temp);
  }

  /** aes_crypt_cbc: lengths that are no multiple of 16 are refused before anything is written. */
  method CryptCbc(e: BlockFn, d: BlockFn, mode: int, length: nat, iv: array<Byte>, inp: array<Byte>, inOff: nat,
                  out: array<Byte>, outOff: nat)
    returns (ret: int)
    requires iv.Length == 16 && iv != inp && iv != out && (inp != out || inOff == outOff)
    requires inOff + length <= inp.Length && outOff + length <= out.Length
    modifies iv, out
    ensures length % 16 != 0 ==> ret == INVALID_INPUT_LENGTH && out[..] == old(out[..]) && iv[..] == old(iv[..])
    ensures length % 16 == 0 ==> ret == 0
    ensures length % 16 == 0 ==>
      var v, x := old(iv[..]), old(inp[inOff..inOff + length]);
      if mode == DECRYPT then
        out[..] == Splice(old(out[..]), outOff, CbcDec(d, v, x)) && iv[..] == CbcIv(v, x)
      else
        out[..] == Splice(old(out[..]), outOff, CbcEnc(e, v, x)) && iv[..] == CbcIv(v, CbcEnc(e, v, x))
  {
    hide CbcEnc, CbcDec, CbcIv, Splice;
    if length % 16 != 0 {
      return INVALID_INPUT_LENGTH;
    }
    if mode == DECRYPT {
      CbcDecrypt(d, length, iv, inp, inOff, out, outOff);
    } else {
      CbcEncrypt(e, length, iv, inp, inOff, out, outOff);
    }
    return 0;
  }

  lemma Prefix16(x: seq<Byte>, i: nat)
    requires |x| % 16 == 0 && i % 16 == 0 && i < |x|
    ensures i + 16 <= |x| && |x[..i]| % 16 == 0 && (i + 16) % 16 == 0
    ensures x[..i + 16] == x[..i] + x[i..i + 16]
  {
  }

  lemma EncMore(e: BlockFn, v: Block, x: seq<Byte>, b: seq<Byte>)
    requires |x| % 16 == 0 && |b| == 16
    ensures var y := CbcEnc(e, v, x); var c := e(XorSeq(b, CbcIv(v, y)));
      |x + b| % 16 == 0 && CbcEnc(e, v, x + b) == y + c && CbcIv(v, y + c) == c
  {
    hide XorSeq, CbcEnc;
    CbcEncSplit(e, v, x, b);
    var iv := CbcIv(v, CbcEnc(e, v, x));
    CbcEncFirst(e, iv, b);
    var c := e(XorSeq(b, iv));
    assert b[..16] == b && b[16..] == [];
    EmptyCbc(e, c);
    assert c + [] == c;
  }

  lemma DecMore(d: BlockFn, v: Block, y: seq<Byte>, b: seq<Byte>)
    requires |y| % 16 == 0 && |b| == 16
    ensures |y + b| % 16 == 0 && CbcDec(d, v, y + b) == CbcDec(d, v, y) + XorSeq(d(b), CbcIv(v, y))
    ensures CbcIv(v, y + b) == b
  {
    hide XorSeq, CbcDec;
    CbcDecSplit(d, v, y, b);
    var iv := CbcIv(v, y);
    CbcDecFirst(d, iv, b);
    assert b[..16] == b && b[16..] == [];
    EmptyCbc(d, b);
    assert XorSeq(d(b), iv) + [] == XorSeq(d(b), iv);
  }

  method CbcEncrypt(e: BlockFn, length: nat, iv: array<Byte>, inp: array<Byte>, inOff: nat,
                    out: array<Byte>, outOff: nat)
    requires iv.Length == 16 && iv != inp && iv != out && (inp != out || inOff == outOff)
    requires length % 16 == 0 && inOff + length <= inp.Length && outOff + length <= out.Length
    modifies iv, out
    ensures var v, x := old(iv[..]), old(inp[inOff..inOff + length]); var y := CbcEnc(e, v, x);
      out[..] == Splice(old(out[..]), outOff, y) && iv[..] == CbcIv(v, y)
  {
    hide CbcEnc, CbcIv, Splice, XorSeq, Midway, Remains;
    ghost var v, x, was := iv[..], inp[inOff..inOff + length], out[..];
    MidwayStart(x, was, outOff, inp[..], inOff);
    EmptyCbc(e, v);
    assert x[..0] == [];
    var left: int, i: nat := length, 0;
    while left > 0
      invariant i + left == length && i % 16 == 0 && left >= 0 && |x| == length && |x[..i]| == i
      invariant Midway(x, was, out[..], outOff, inp[..], inOff, i, CbcEnc(e, v, x[..i]))
      invariant iv[..] == CbcIv(v, CbcEnc(e, v, x[..i]))
    {
      Prefix16(x, i);
      ghost var b := x[i..i + 16];
      EncMore(e, v, x[..i], b);
      MidwayStep(x, was, out[..], outOff, inp[..], inOff, i, CbcEnc(e, v, x[..i]), e(XorSeq(b, iv[..])));
      EncryptOne(e, iv, inp, inOff + i, out, outOff + i);
      i, left := i + 16, left - 16;
    }
    assert x[..i] == x;
    MidwayEnd(x, was, out[..], outOff, inp[..], inOff, CbcEnc(e, v, x));
  }

  method CbcDecrypt(d: BlockFn, length: nat, iv: array<Byte>, inp: array<Byte>, inOff: nat,
                    out: array<Byte>, outOff: nat)
    requires iv.Length == 16 && iv != inp && iv != out && (inp != out || inOff == outOff)
    requires length % 16 == 0 && inOff + length <= inp.Length && outOff + length <= out.Length
    modifies iv, out
    ensures var v, y := old(iv[..]), old(inp[inOff..inOff + length]);
      out[..] == Splice(old(out[..]), outOff, CbcDec(d, v, y)) && iv[..] == CbcIv(v, y)
  {
    hide CbcDec, CbcIv, Splice, XorSeq, Midway, Remains;
    ghost var v, y, was := iv[..], inp[inOff..inOff + length], out[..];
    MidwayStart(y, was, outOff, inp[..], inOff);
    EmptyCbc(d, v);
    assert y[..0] == [];
    var left: int, i: nat := length, 0;
    while left > 0
      invariant i + left == length && i % 16 == 0 && left >= 0 && |y| == length && |y[..i]| == i
      invariant Midway(y, was, out[..], outOff, inp[..], inOff, i, CbcDec(d, v, y[..i]))
      invariant iv[..] == CbcIv(v, y[..i])
    {
      Prefix16(y, i);
      ghost var b := y[i..i + 16];
      DecMore(d, v, y[..i], b);
      MidwayStep(y, was, out[..], outOff, inp[..], inOff, i, CbcDec(d, v, y[..i]), XorSeq(d(b), iv[..]));
      DecryptOne(d, iv, inp, inOff + i, out, outOff + i);
      i, left := i + 16, left - 16;
    }
    assert y[..i] == y;
    MidwayEnd(y, was, out[..], outOff, inp[..], inOff, CbcDec(d, v, y));
  }
}
