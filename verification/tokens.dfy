/** The on-disk value format of chunk and result files: each value written as
    ASCII decimal followed by one space (`write!(writer, "{} ", i)`,
    src/merger/mod.rs lines 78-80), and the tokeniser `read_chunk` applies to
    it (lines 49-57): read up to and including the next space, pop the last
    byte, and parse what is left as a u64. */
module Tokens {
  import opened U64
  import opened Wrappers

  type byte = x: int | 0 <= x < 256

  const SPACE: byte := 32
  const PLUS: byte := 43
  const MINUS: byte := 45
  const ZERO: byte := 48

  predicate IsDigit(b: byte)
  {
    ZERO <= b < ZERO + 10
  }

  predicate AllDigits(bs: seq<byte>)
  {
    forall k :: 0 <= k < |bs| ==> IsDigit(bs[k])
  }

  /** The number a string of decimal digits denotes (most significant first). */
  function DigitsValue(ds: seq<byte>): nat
    requires AllDigits(ds)
  {
    if |ds| == 0 then 0
    else DigitsValue(ds[..|ds| - 1]) * 10 + (ds[|ds| - 1] - ZERO)
  }

  /** Rust's `Display` of an unsigned integer: its decimal digits, without
      leading zeros. */
  function Decimal(n: nat): (r: seq<byte>)
    ensures |r| >= 1 && AllDigits(r)
    ensures DigitsValue(r) == n
    ensures r[0] == ZERO ==> n == 0 && |r| == 1
  {
    if n < 10 then [ZERO + n]
    else
      var r := Decimal(n / 10) + [ZERO + n % 10];
      assert r[..|r| - 1] == Decimal(n / 10);
      r
  }

  /** `from_utf8(token).unwrap().parse::<u64>()` as one step, `None` meaning
      the run panics: an optional `+`, then one or more decimal digits whose
      value fits in 64 bits. Any byte outside that alphabet makes either the
      UTF-8 decoding or the parse fail. */
  function ParseU64(tok: seq<byte>): (r: Option<u64>)
    // the empty token and a lone sign are rejected
    ensures |tok| == 0 || tok == [PLUS] ==> r.None?
    // an unsigned parse admits no minus sign
    ensures |tok| > 0 && tok[0] == MINUS ==> r.None?
    // only digits are accepted, after an optional leading plus
    ensures r.Some? ==> |tok| > 0 && (AllDigits(tok) || (tok[0] == PLUS && AllDigits(tok[1..])))
    // digits, with or without the plus, parse to their value exactly when it
    // is below 2^64; leading zeros are accepted
    ensures |tok| > 0 && AllDigits(tok) ==>
      r == (if DigitsValue(tok) < BOUND then Some(DigitsValue(tok)) else None)
    ensures |tok| > 1 && tok[0] == PLUS && AllDigits(tok[1..]) ==>
      r == (if DigitsValue(tok[1..]) < BOUND then Some(DigitsValue(tok[1..])) else None)
  {
    var ds := if |tok| > 0 && tok[0] == PLUS then tok[1..] else tok;
    if |ds| == 0 || !AllDigits(ds) then None
    else if DigitsValue(ds) < BOUND then Some(DigitsValue(ds))
    else None
  }

  /** `BufRead::read_until(b' ', ..)` on the unread bytes of a stream: what it
      appends to the buffer, and what stays unread. */
  function ReadUntilSpace(rest: seq<byte>): (r: (seq<byte>, seq<byte>))
    ensures r.0 + r.1 == rest
    ensures |r.0| == 0 <==> |rest| == 0
    ensures forall k :: 0 <= k < |r.0| - 1 ==> r.0[k] != SPACE
    ensures |r.1| > 0 ==> r.0[|r.0| - 1] == SPACE
    ensures |r.0| > 0 && r.0[|r.0| - 1] != SPACE ==> |r.1| == 0
  {
    if |rest| == 0 then ([], [])
    else if rest[0] == SPACE then ([SPACE], rest[1..])
    else
      var (t, u) := ReadUntilSpace(rest[1..]);
      assert [rest[0]] + t + u == rest;
      ([rest[0]] + t, u)
  }

  /** One iteration of the tokenising loop: `End` when `read_until` reads
      nothing, `Malformed` when the token does not parse (the run panics). */
  datatype Token = End | Parsed(value: u64, rest: seq<byte>) | Malformed

  function NextToken(rest: seq<byte>): (t: Token)
    ensures t.End? <==> |rest| == 0
    ensures t.Parsed? ==> |t.rest| < |rest| && rest[|rest| - |t.rest|..] == t.rest
    // a parsed token has at least one byte besides the one `pop` drops
    ensures t.Parsed? ==> |t.rest| + 2 <= |rest|
  {
    var (cur, after) := ReadUntilSpace(rest);
    if |cur| == 0 then End
    else
      // `cur.pop()` drops the last byte whether or not it is the delimiter
      match ParseU64(cur[..|cur| - 1])
      case None => Malformed
      case Some(v) => Parsed(v, after)
  }

  /** The bytes `write_result` emits for a vector: every value in decimal
      followed by one space. */
  function Encode(vs: seq<u64>): (r: seq<byte>)
    // each value costs at least one digit and its space
    ensures |r| >= 2 * |vs|
    ensures |r| == 0 <==> |vs| == 0
    // only digits and spaces, and a space terminates the last value
    ensures forall k :: 0 <= k < |r| ==> r[k] == SPACE || IsDigit(r[k])
    ensures |r| > 0 ==> r[|r| - 1] == SPACE
  {
    if |vs| == 0 then []
    else
      var d := Decimal(vs[0]);
      var t := Encode(vs[1..]);
      var r := d + [SPACE] + t;
      assert forall k :: 0 <= k < |r| ==> r[k] == SPACE || IsDigit(r[k]) by {
        forall k | 0 <= k < |r|
          ensures r[k] == SPACE || IsDigit(r[k])
        {
          if k < |d| {
            assert r[k] == d[k];
          } else if k > |d| {
            assert r[k] == t[k - |d| - 1];
          }
        }
      }
      r
  }

  /** Reads every token up to the end of the stream; `None` when a token
      fails to parse. */
  function Tokenize(rest: seq<byte>): (r: Option<seq<u64>>)
    ensures |rest| == 0 ==> r == Some([])
    // a non-empty stream that parses holds at least one value, and every
    // value takes at least two bytes
    ensures r.Some? ==> (|r.value| == 0 <==> |rest| == 0)
    ensures r.Some? ==> 2 * |r.value| <= |rest|
    decreases |rest|
  {
    match NextToken(rest)
    case End => Some([])
    case Malformed => None
    case Parsed(v, after) =>
      match Tokenize(after)
      case None => None
      case Some(vs) => Some([v] + vs)
  }

  lemma {:induction false} ReadUntilSpaceToken(tok: seq<byte>, tail: seq<byte>)
    requires forall k :: 0 <= k < |tok| ==> tok[k] != SPACE
    ensures ReadUntilSpace(tok + [SPACE] + tail) == (tok + [SPACE], tail)
    decreases |tok|
  {
    var s := tok + [SPACE] + tail;
    if |tok| > 0 {
      assert s[0] == tok[0] != SPACE;
      assert s[1..] == tok[1..] + [SPACE] + tail;
      ReadUntilSpaceToken(tok[1..], tail);
      assert [tok[0]] + (tok[1..] + [SPACE]) == tok + [SPACE];
    } else {
      assert s == [SPACE] + tail;
      assert s[1..] == tail;
    }
  }

  /** Parsing the decimal rendering of a u64 returns it. */
  lemma ParseDecimal(v: u64)
    ensures ParseU64(Decimal(v)) == Some(v)
  {
  }

  /** A space-terminated decimal token at the head of a stream is read back as
      its value, and exactly that token and its delimiter are consumed. */
  lemma NextTokenOfEncoded(v: u64, tail: seq<byte>)
    ensures NextToken(Decimal(v) + [SPACE] + tail) == Parsed(v, tail)
  {
    var d := Decimal(v);
    ReadUntilSpaceToken(d, tail);
    assert (d + [SPACE])[..|d + [SPACE]| - 1] == d;
    ParseDecimal(v);
  }

  lemma EncodeHead(vs: seq<u64>)
    requires |vs| > 0
    ensures Encode(vs) == Decimal(vs[0]) + [SPACE] + Encode(vs[1..])
  {
  }

  /** Serialisation round trip: tokenising the bytes `write_result` produces
      gives back the values written, in order. */
  lemma {:induction false} TokenizeEncode(vs: seq<u64>)
    ensures Tokenize(Encode(vs)) == Some(vs)
    decreases |vs|, 1
  {
    if |vs| > 0 {
      TokenizeEncodeStep(vs);
    } else {
      assert NextToken(Encode(vs)) == End;
    }
  }

  lemma {:induction false} TokenizeEncodeStep(vs: seq<u64>)
    requires |vs| > 0
    ensures Tokenize(Encode(vs)) == Some(vs)
    decreases |vs|, 0
  {
    var tail := Encode(vs[1..]);
    TokenizeEncode(vs[1..]);
    TokenizeEncodedHead(vs[0], tail, vs[1..]);
    EncodeHead(vs);
    assert [vs[0]] + vs[1..] == vs;
  }

  lemma TokenizeEncodedHead(v: u64, tail: seq<byte>, vs: seq<u64>)
    requires Tokenize(tail) == Some(vs)
    ensures Tokenize(Decimal(v) + [SPACE] + tail) == Some([v] + vs)
  {
    NextTokenOfEncoded(v, tail);
  }

  /** Writing two vectors one after the other gives the bytes of their
      concatenation, so successive `write_result` appends form one encoding. */
  lemma {:induction false} EncodeAppend(a: seq<u64>, b: seq<u64>)
    ensures Encode(a + b) == Encode(a) + Encode(b)
    decreases |a|
  {
    if |a| > 0 {
      assert (a + b)[1..] == a[1..] + b;
      EncodeAppend(a[1..], b);
    } else {
      assert a + b == b;
    }
  }

  /** A final token that ends in a digit, with no delimiter after it, loses
      that digit to `cur.pop()`: a one-digit token becomes empty and fails to
      parse, a longer one parses as the value divided by ten. */
  lemma UnterminatedTokenLosesDigit(v: u64)
    ensures NextToken(Decimal(v)) == (if v < 10 then Malformed else Parsed(v / 10, []))
  {
    var d := Decimal(v);
    assert ReadUntilSpace(d) == (d, []) by {
      assert forall k :: 0 <= k < |d| ==> d[k] != SPACE;
      NoSpaceReadsAll(d);
    }
    if v >= 10 {
      assert d[..|d| - 1] == Decimal(v / 10);
      ParseDecimal(v / 10);
    }
  }

  /** When the stream ends without a space, `cur.pop()` drops its final byte,
      whatever it is, and the token is what comes before it: `3` followed by a
      newline reads as 3. */
  lemma FinalByteDropped(tok: seq<byte>, last: byte)
    requires last != SPACE && forall k :: 0 <= k < |tok| ==> tok[k] != SPACE
    ensures NextToken(tok + [last]) == match ParseU64(tok) case None => Malformed case Some(v) => Parsed(v, [])
  {
    var s := tok + [last];
    NoSpaceReadsAll(s);
    assert s[..|s| - 1] == tok;
  }

  lemma {:induction false} NoSpaceReadsAll(bs: seq<byte>)
    requires forall k :: 0 <= k < |bs| ==> bs[k] != SPACE
    ensures ReadUntilSpace(bs) == (bs, [])
    decreases |bs|
  {
    if |bs| > 0 {
      NoSpaceReadsAll(bs[1..]);
      assert [bs[0]] + bs[1..] == bs;
    }
  }

  /** Two consecutive spaces make an empty token, which does not parse: the
      run panics rather than skipping it. */
  lemma EmptyTokenIsMalformed(tail: seq<byte>)
    ensures NextToken([SPACE] + tail) == Malformed
  {
    assert ReadUntilSpace([SPACE] + tail) == ([SPACE], tail) by {
      assert ([SPACE] + tail)[1..] == tail;
    }
  }
}
