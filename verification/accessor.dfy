/** The accessor generator (`create_constant_func`): the source text of an
    inlined, argument-less function that returns a `&'static` reference to
    the declared type by reinterpreting a static byte buffer. */
module Accessor {
  import opened Wrappers
  import opened Hex
  import opened Marshall

  /** The fixed pieces of the template, in order; the holes between them take
      the function name, the type name, the byte literal and the type name. */
  const FnKeyword: string := "#[inline]\nfn "
  const ReturnsStatic: string := "() -> &'static "
  const BufDecl: string := " {\n    const BUF: &[u8] = "
  const CastToType: string := ";\n    unsafe { &*(BUF.as_ptr() as *const "
  const Closing: string := ") }\n}\n"

  /** Everything the template puts before the byte literal. */
  function Head(fname: string, typename: string): string {
    FnKeyword + fname + ReturnsStatic + typename + BufDecl
  }

  /** Everything the template puts after the byte literal. */
  function Tail(typename: string): string {
    CastToType + typename + Closing
  }

  /** Reads the byte literal back out of generated text, given the function
      and type names it was generated for. */
  function ReadBack(fname: string, typename: string, text: string): (r: Option<seq<Byte>>)
    ensures r.Some? ==> At(text, 0, Head(fname, typename))
    ensures r.Some? ==> At(text, |text| - |Tail(typename)|, Tail(typename))
  {
    var h := Head(fname, typename);
    var t := Tail(typename);
    if |h| + |t| <= |text| && text[..|h|] == h && text[|text| - |t|..] == t
    then Unmarshall(text[|h|..|text| - |t|])
    else None
  }

  /** `create_constant_func`: the template filled with the function name,
      the type name, the marshalled bytes and the type name again. The
      length counts the type name twice and six characters per byte. */
  function CreateConstantFunc(fname: string, typename: string, bs: seq<Byte>): (text: string)
    ensures |text| == |FnKeyword| + |fname| + |ReturnsStatic| + 2 * |typename|
                      + |BufDecl| + |CastToType| + |Closing| + 3 + 6 * |bs|
  {
    Head(fname, typename) + MarshallValue(bs) + Tail(typename)
  }

  /** The generated text is the head, the byte literal and the tail, laid
      end to end. */
  lemma AccessorPieces(fname: string, typename: string, bs: seq<Byte>)
    ensures var text := CreateConstantFunc(fname, typename, bs);
            && At(text, 0, Head(fname, typename))
            && At(text, |Head(fname, typename)|, MarshallValue(bs))
            && At(text, |text| - |Tail(typename)|, Tail(typename))
  {
    AtThree(Head(fname, typename), MarshallValue(bs), Tail(typename));
  }

  /** `BUF` is initialised with exactly the marshalled bytes. */
  lemma AccessorBuf(fname: string, typename: string, bs: seq<Byte>)
    ensures At(CreateConstantFunc(fname, typename, bs), |Head(fname, typename)|, MarshallValue(bs))
    ensures At(CreateConstantFunc(fname, typename, bs), |Head(fname, typename)| - |BufDecl|, BufDecl)
  {
    AccessorPieces(fname, typename, bs);
    var sig := FnKeyword + fname + ReturnsStatic + typename;
    assert Head(fname, typename) == sig + BufDecl;
    AtAfter(CreateConstantFunc(fname, typename, bs), sig, BufDecl);
  }

  /** The generated function is marked `#[inline]`, is named `fname`, and
      returns a `&'static` reference to `typename`. */
  lemma AccessorSignature(fname: string, typename: string, bs: seq<Byte>)
    ensures var text := CreateConstantFunc(fname, typename, bs);
            && At(text, 0, FnKeyword) && At(text, |FnKeyword|, fname)
            && At(text, |FnKeyword| + |fname|, ReturnsStatic)
            && At(text, |FnKeyword| + |fname| + |ReturnsStatic|, typename)
  {
    var text := CreateConstantFunc(fname, typename, bs);
    AccessorPieces(fname, typename, bs);
    HeadLayout(fname, typename);
    AtWithin(text, 0, Head(fname, typename), 0, FnKeyword);
    AtWithin(text, 0, Head(fname, typename), |FnKeyword|, fname);
    AtWithin(text, 0, Head(fname, typename), |FnKeyword| + |fname|, ReturnsStatic);
    AtWithin(text, 0, Head(fname, typename), |FnKeyword| + |fname| + |ReturnsStatic|, typename);
  }

  /** The statement after `BUF` reinterprets it as `typename`: right after
      the byte literal come `;`, the `unsafe` pointer cast `as *const `, the
      type name, and the closing `) }` and `}` that end the text. */
  lemma AccessorCast(fname: string, typename: string, bs: seq<Byte>)
    ensures var text := CreateConstantFunc(fname, typename, bs);
            var start := |Head(fname, typename)| + |MarshallValue(bs)|;
            && At(text, start, CastToType)
            && At(text, start + |CastToType|, typename)
            && At(text, start + |CastToType| + |typename|, Closing)
            && start + |CastToType| + |typename| + |Closing| == |text|
  {
    assert Tail(typename) == CastToType + typename + Closing;
    AtTailParts(Head(fname, typename), MarshallValue(bs), CastToType, typename, Closing);
  }

  /** Where the function name and the return type sit in the head. */
  lemma HeadLayout(fname: string, typename: string)
    ensures At(Head(fname, typename), 0, FnKeyword)
    ensures At(Head(fname, typename), |FnKeyword|, fname)
    ensures At(Head(fname, typename), |FnKeyword| + |fname|, ReturnsStatic)
    ensures At(Head(fname, typename), |FnKeyword| + |fname| + |ReturnsStatic|, typename)
  {
    var kf := FnKeyword + fname;
    AtConcat(FnKeyword, fname);
    var kfr := kf + ReturnsStatic;
    AtConcat(kf, ReturnsStatic);
    AtLeft(kf, ReturnsStatic, 0, FnKeyword);
    AtLeft(kf, ReturnsStatic, |FnKeyword|, fname);
    var kfrt := kfr + typename;
    AtConcat(kfr, typename);
    AtLeft(kfr, typename, 0, FnKeyword);
    AtLeft(kfr, typename, |FnKeyword|, fname);
    AtLeft(kfr, typename, |FnKeyword| + |fname|, ReturnsStatic);
    AtLeft(kfrt, BufDecl, 0, FnKeyword);
    AtLeft(kfrt, BufDecl, |FnKeyword|, fname);
    AtLeft(kfrt, BufDecl, |FnKeyword| + |fname|, ReturnsStatic);
    AtLeft(kfrt, BufDecl, |FnKeyword| + |fname| + |ReturnsStatic|, typename);
  }

  /** Round trip: the byte literal read back out of a generated accessor is
      the value it was generated from. */
  lemma ReadBackCreate(fname: string, typename: string, bs: seq<Byte>)
    ensures ReadBack(fname, typename, CreateConstantFunc(fname, typename, bs)) == Some(bs)
  {
    var h := Head(fname, typename);
    var lit := MarshallValue(bs);
    var t := Tail(typename);
    var text := h + lit + t;
    assert CreateConstantFunc(fname, typename, bs) == text;
    AtConcat(h, lit);
    AtConcat(h + lit, t);
    assert text[..|h|] == (h + lit)[..|h|];
    assert text[|h|..|text| - |t|] == lit;
    UnmarshallMarshall(bs);
  }

  /** The generated text determines the bytes: the only text `ReadBack`
      accepts for `bs` is the template filled with `bs`. */
  lemma CreateReadBack(fname: string, typename: string, text: string, bs: seq<Byte>)
    requires ReadBack(fname, typename, text) == Some(bs)
    ensures CreateConstantFunc(fname, typename, bs) == text
  {
    var h := Head(fname, typename);
    var t := Tail(typename);
    MarshallUnmarshall(text[|h|..|text| - |t|], bs);
    Reassemble(text, h, t);
  }

  /** Two registrations of the same name and type produce the same accessor
      text only for the same value. */
  lemma CreateConstantFuncInjective(fname: string, typename: string, a: seq<Byte>, b: seq<Byte>)
    requires CreateConstantFunc(fname, typename, a) == CreateConstantFunc(fname, typename, b)
    ensures a == b
  {
    ReadBackCreate(fname, typename, a);
    ReadBackCreate(fname, typename, b);
  }
}
