/** The byte marshaller (`marshall_value`): a value's memory image rendered
    as a Rust byte-slice literal such as `&[0x08, 0x08, ]`, and the decoder
    that reads such a literal back. */
module Marshall {
  import opened Wrappers
  import opened Hex

  const Open: string := "&["
  const Close: string := "]"
  const HexPrefix: string := "0x"
  const Separator: string := ", "

  /** True when `piece` occurs in `s` starting at index `i`. */
  predicate At(s: string, i: int, piece: string) {
    0 <= i && i + |piece| <= |s| && s[i..i + |piece|] == piece
  }

  /** Both operands of a concatenation occur in it where expected. */
  lemma AtConcat(a: string, b: string)
    ensures At(a + b, 0, a) && At(a + b, |a|, b)
  {
    assert (a + b)[..|a|] == a;
    assert (a + b)[|a|..|a| + |b|] == b;
  }

  /** A piece of the left operand stays where it was. */
  lemma AtLeft(a: string, b: string, i: int, piece: string)
    requires At(a, i, piece)
    ensures At(a + b, i, piece)
  {
    assert (a + b)[i..i + |piece|] == a[i..i + |piece|];
  }

  /** A piece of a piece is a piece of the whole. */
  lemma AtWithin(s: string, i: int, p: string, j: int, q: string)
    requires At(s, i, p) && At(p, j, q)
    ensures At(s, i + j, q)
  {
    forall k | 0 <= k < |q|
      ensures s[i + j + k] == q[k]
    {
      assert s[i..i + |p|][j + k] == p[j + k];
      assert p[j..j + |q|][k] == q[k];
    }
  }

  /** The right part of a piece found at the start is found after the left part. */
  lemma AtAfter(s: string, x: string, d: string)
    requires At(s, 0, x + d)
    ensures At(s, |x|, d)
  {
    AtConcat(x, d);
    AtWithin(s, 0, x + d, |x|, d);
  }

  /** Where each of three concatenated strings lies in the result. */
  lemma AtThree(h: string, m: string, t: string)
    ensures At(h + m + t, 0, h) && At(h + m + t, |h|, m) && At(h + m + t, |h + m + t| - |t|, t)
  {
    AtConcat(h, m);
    AtLeft(h + m, t, 0, h);
    AtLeft(h + m, t, |h|, m);
    AtConcat(h + m, t);
  }

  /** Where the three parts of a tail `c + x + e` lie once it follows `h + m`. */
  lemma AtTailParts(h: string, m: string, c: string, x: string, e: string)
    ensures var s := h + m + (c + x + e);
            var start := |h| + |m|;
            && At(s, start, c) && At(s, start + |c|, x) && At(s, start + |c| + |x|, e)
            && start + |c| + |x| + |e| == |s|
  {
    var t := c + x + e;
    var s := h + m + t;
    AtThree(h, m, t);
    AtThree(c, x, e);
    AtWithin(s, |h| + |m|, t, 0, c);
    AtWithin(s, |h| + |m|, t, |c|, x);
    AtWithin(s, |h| + |m|, t, |c| + |x|, e);
  }

  /** A string is its head, its middle and its tail laid end to end. */
  lemma Reassemble(s: string, h: string, t: string)
    requires |h| + |t| <= |s| && s[..|h|] == h && s[|s| - |t|..] == t
    ensures s == h + s[|h|..|s| - |t|] + t
  {
  }

  /** The text one loop iteration appends: `format!("0x{:02X}, ", b)`. */
  function Group(b: Byte): (g: string)
    ensures |g| == 6
  {
    HexPrefix + FormatByte(b) + Separator
  }

  /** `g` is lower-case `0x`, two upper-case hexadecimal digits spelling
      `b`, then the separator. */
  predicate IsGroupOf(g: string, b: Byte) {
    && |g| == 6
    && At(g, 0, HexPrefix) && At(g, 4, Separator)
    && IsUpperHexDigit(g[2]) && IsUpperHexDigit(g[3])
    && ParseByte(g[2..4]) == Some(b)
  }

  lemma GroupFormat(b: Byte)
    ensures IsGroupOf(Group(b), b)
  {
    var g := Group(b);
    assert g[2..4] == FormatByte(b);
    ParseFormatByte(b);
  }

  /** The groups of all bytes, in address order. */
  function Groups(bs: seq<Byte>): (s: string)
    ensures |s| == 6 * |bs|
    ensures forall i :: 0 <= i < |bs| ==> At(s, 6 * i, Group(bs[i]))
  {
    if bs == [] then ""
    else
      var rest := Groups(bs[1..]);
      var s := Group(bs[0]) + rest;
      assert forall i | 1 <= i < |bs| :: At(s, 6 * i, Group(bs[i])) by {
        forall i | 1 <= i < |bs|
          ensures At(s, 6 * i, Group(bs[i]))
        {
          assert bs[1..][i - 1] == bs[i];
          assert s[6 * i..6 * i + 6] == rest[6 * (i - 1)..6 * (i - 1) + 6];
        }
      }
      s
  }

  /** `marshall_value`: `&[`, one group per byte, `]`. */
  function MarshallValue(bs: seq<Byte>): (lit: string)
    ensures |lit| == 3 + 6 * |bs|
    ensures At(lit, 0, Open) && lit[|lit| - 1] == ']'
    ensures forall i :: 0 <= i < |bs| ==> At(lit, 2 + 6 * i, Group(bs[i]))
  {
    var gs := Groups(bs);
    var lit := Open + gs + Close;
    assert lit[2..2 + |gs|] == gs;
    assert forall i :: 0 <= i < |bs| ==> lit[2 + 6 * i..2 + 6 * i + 6] == gs[6 * i..6 * i + 6];
    lit
  }

  /** Every byte of the value becomes one well-formed group, in address
      order: `0x`, two upper-case digits of that byte, `, `. */
  lemma MarshallValueFormat(bs: seq<Byte>)
    ensures forall i :: 0 <= i < |bs| ==>
      IsGroupOf(MarshallValue(bs)[2 + 6 * i..8 + 6 * i], bs[i])
  {
    var lit := MarshallValue(bs);
    forall i | 0 <= i < |bs|
      ensures IsGroupOf(lit[2 + 6 * i..8 + 6 * i], bs[i])
    {
      GroupFormat(bs[i]);
    }
  }

  /** Reads one group `0xHH, ` back; `None` for anything else. */
  function ParseGroup(g: string): (r: Option<Byte>)
    requires |g| == 6
    ensures forall b: Byte :: r == Some(b) <==> IsGroupOf(g, b)
  {
    if g[..2] == HexPrefix && g[4..] == Separator then ParseByte(g[2..4]) else None
  }

  /** Reading a group back gives the byte it was made from. */
  lemma ParseGroupOfGroup(b: Byte)
    ensures ParseGroup(Group(b)) == Some(b)
  {
    GroupFormat(b);
  }

  /** A group that reads back as `b` is exactly `Group(b)`. */
  lemma GroupOfParseGroup(g: string, b: Byte)
    requires |g| == 6 && ParseGroup(g) == Some(b)
    ensures Group(b) == g
  {
    FormatParseByte(g[2..4], b);
    assert g == g[..2] + g[2..4] + g[4..];
  }

  /** Reads a run of groups back, front to back. */
  function ParseGroups(s: string): (r: Option<seq<Byte>>)
    ensures r.Some? ==> |s| == 6 * |r.value|
    decreases |s|
  {
    if |s| == 0 then Some([])
    else if |s| < 6 then None
    else match ParseGroup(s[..6])
      case None => None
      case Some(b) =>
        match ParseGroups(s[6..])
        case None => None
        case Some(rest) => Some([b] + rest)
  }

  /** The decoder: the bytes a literal `&[0xHH, ...]` spells, or `None` when
      the text is not a literal the marshaller could have produced. */
  function Unmarshall(lit: string): (r: Option<seq<Byte>>)
    ensures r.Some? ==> |lit| == 3 + 6 * |r.value|
  {
    if |lit| >= 3 && lit[..2] == Open && lit[|lit| - 1] == ']'
    then ParseGroups(lit[2..|lit| - 1])
    else None
  }

  lemma {:induction false} ParseGroupsOfGroups(bs: seq<Byte>)
    ensures ParseGroups(Groups(bs)) == Some(bs)
    decreases |bs|
  {
    if bs != [] {
      var s := Groups(bs);
      assert s[..6] == Group(bs[0]);
      assert s[6..] == Groups(bs[1..]);
      ParseGroupOfGroup(bs[0]);
      ParseGroupsOfGroups(bs[1..]);
      assert [bs[0]] + bs[1..] == bs;
    }
  }

  /** Round trip: decoding the literal recovers exactly the input bytes, in
      address order, one group per byte. */
  lemma UnmarshallMarshall(bs: seq<Byte>)
    ensures Unmarshall(MarshallValue(bs)) == Some(bs)
  {
    var lit := MarshallValue(bs);
    assert lit[2..|lit| - 1] == Groups(bs);
    ParseGroupsOfGroups(bs);
  }

  lemma {:induction false} GroupsOfParseGroups(s: string, bs: seq<Byte>)
    requires ParseGroups(s) == Some(bs)
    ensures Groups(bs) == s
    decreases |s|
  {
    if |s| > 0 {
      var b := ParseGroup(s[..6]).value;
      var rest := ParseGroups(s[6..]).value;
      assert bs == [b] + rest;
      assert bs[1..] == rest;
      GroupsOfParseGroups(s[6..], rest);
      GroupOfParseGroup(s[..6], b);
      assert s == s[..6] + s[6..];
    }
  }

  /** Canonical form: the only text the decoder accepts for `bs` is the
      marshaller's own output, so upper-case digits and the `, ` after the
      last byte are part of the format. */
  lemma MarshallUnmarshall(lit: string, bs: seq<Byte>)
    requires Unmarshall(lit) == Some(bs)
    ensures MarshallValue(bs) == lit
  {
    GroupsOfParseGroups(lit[2..|lit| - 1], bs);
    assert lit[|lit| - 1..] == Close;
    Reassemble(lit, Open, Close);
  }

  /** Different values have different literals. */
  lemma MarshallValueInjective(a: seq<Byte>, b: seq<Byte>)
    requires MarshallValue(a) == MarshallValue(b)
    ensures a == b
  {
    UnmarshallMarshall(a);
    UnmarshallMarshall(b);
  }

  /** A zero-sized value marshals to the empty slice literal. */
  lemma MarshallEmpty()
    ensures MarshallValue([]) == "&[]"
  {
  }

  /** The documented example: an `Ipv4Addr` holding 8.8.8.8. */
  lemma MarshallDocExample()
    ensures MarshallValue([8, 8, 8, 8]) == "&[0x08, 0x08, 0x08, 0x08, ]"
  {
    var g := "0x08, ";
    assert FormatByte(8) == "08" by {
      assert HexDigit(0) == '0' && HexDigit(8) == '8';
    }
    assert Group(8) == g;
    var bs: seq<Byte> := [8, 8, 8, 8];
    assert Groups(bs[4..]) == "";
    assert Groups(bs[3..]) == g;
    assert Groups(bs[2..]) == g + g;
    assert Groups(bs[1..]) == g + g + g;
    assert Groups(bs) == g + g + g + g;
    assert MarshallValue(bs) == Open + (g + g + g + g) + Close;
    FourGroupsLiteral();
  }

  /** The four groups of the documented example, bracketed, spell its
      literal. */
  lemma FourGroupsLiteral()
    ensures Open + ("0x08, " + "0x08, " + "0x08, " + "0x08, ") + Close == "&[0x08, 0x08, 0x08, 0x08, ]"
  {
  }
}
