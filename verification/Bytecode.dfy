/**
  The instruction format: the grammar in the comment of inc/bytecode.h as an
  encoder, and the decoder spread over vm.c as a function and as the methods
  that read through the program counter.  Bit fields are those of the
  ANIMULA_BITS_BIG layout, words those of the 32-bit configuration.
*/
module Bytecode {
  import opened Octets
  import opened Options
  import Words

  // u16_t and u32_t
  type Half = x: nat | x < 0x1_0000
  type Word = x: nat | x < 0x1_0000_0000

  // MAX_STR_LEN
  const MAX_STR_LEN := 256

  // Offsets and indices are the ones the instruction is about, not the fields
  // they are encoded in.
  datatype Instruction =
    | LocalRef(offset: Half)
    | CallLocal(offset: Half)
    | LocalAssign(offset: Half)
    | FreeRef(up: Byte, offset: Half)
    | CallFree(up: Byte, offset: Half)
    | FreeAssign(up: Byte, offset: Half)
    | Prelude(mode: Byte, arity: Byte)
    | GlobalAssign(index: Word)
    | GlobalRef(index: Word)
    | CallGlobal(index: Word)
    | CallProc(target: Half)
    | JumpIfFalse(target: Half)
    | Jump(target: Half)
    | VectorRef(vec: Byte, at: Byte)
    | VectorSet(vec: Byte, at: Byte, value: Byte)
    | ClosureOnHeap(arity: Byte, frame: Byte, entry: Half)
    | ClosureOnStack(frame: Byte, entry: Half)
    | Primitive(number: Half)
    | False
    | True
    | General(obj: Object)
    | Character(code: Byte)
    | EmptyList
    | Unspecified
    | Symbol(offset: Half)
    | Halt
    // Not in the grammar: an instruction that does nothing, and a closure on the
    // stack as it is stored, but for the environment's offset that is or-ed to it.
    | Nothing
    | StackClosure(word: Word)

  // The constants of generate_object.
  datatype Object =
    | Integer(word: Word)
    | Text(chars: Bytes)
    | Keyword(chars: Bytes)
    | Procedure(entry: Half, arity: Byte, opt: Byte)
    | Prim(word: Word)
    | Pair
    | ListOf(count: Half)
    | VectorOf(count: Half)
    | Real(word: Word)
    | Rational(negative: bool, numerator: Half, denominator: Half)
    | ComplexExact(re: Half, im: Half)
    | ComplexInexact(bytes: Bytes)
    | ByteVector(mutable: bool, bytes: Bytes)
    // Not in the grammar: an exact complex number as it is stored, and a vector
    // of fresh memory.
    | ComplexWord(bits: Word)
    | FreshVector(count: Half)

  // Bit fields as quotients, remainders and sums: x >> k is x / 2^k, and fields
  // that do not overlap are or-ed by adding them.
  function High(x: Half): Byte {
    x / 256
  }

  function Low(x: Half): Byte {
    x % 256
  }

  function Word16(high: Byte, low: Byte): Half {
    high * 256 + low
  }

  function Two(x: Half): Bytes {
    [High(x), Low(x)]
  }

  function Upper(x: Word): Half {
    x / 0x1_0000
  }

  function Lower(x: Word): Half {
    x % 0x1_0000
  }

  function Word32(a: Byte, b: Byte, c: Byte, d: Byte): Word {
    Word16(a, b) * 0x1_0000 + Word16(c, d)
  }

  function Four(x: Word): Bytes {
    Two(Upper(x)) + Two(Lower(x))
  }

  lemma TwoRead(x: Half)
    ensures Word16(High(x), Low(x)) == x
  {
  }

  lemma FourRead(x: Word)
    ensures Word32(High(Upper(x)), Low(Upper(x)), High(Lower(x)), Low(Lower(x))) == x
  {
    TwoRead(Upper(x));
    TwoRead(Lower(x));
  }

  // The first byte: its form and the low four bits.
  function Opcode(form: Byte, data: Byte): Byte
    requires form < 16 && data < 16
  {
    form * 16 + data
  }

  // Free variables: six bits of offset, two of them in the second byte above
  // the six bits of up.
  function FreeData(x: Half): (d: Byte)
    requires x < 64
    ensures d < 16
  {
    x / 4
  }

  function FreeByte(up: Byte, x: Half): Byte
    requires up < 64
  {
    x % 4 * 64 + up
  }

  function FreeUp(b: Byte): Byte {
    b % 64
  }

  function FreeOffset(data: Byte, b: Byte): Half {
    (data * 4 + b / 64) % 256
  }

  // A u8_t that is 32 more than the byte read.
  function HighOffset(b: Byte): Half {
    (b + 32) % 256
  }

  // PROC_MODE and PROC_ARITY
  function PreludeByte(mode: Byte, arity: Byte): Byte
    requires mode < 4 && arity < 64
  {
    arity * 4 + mode
  }

  function PreludeMode(b: Byte): Byte {
    b % 4
  }

  function PreludeArity(b: Byte): Byte {
    b / 4
  }

  function ClosureByte(arity: Byte, frame: Byte): Byte
    requires arity < 16 && frame < 16
  {
    arity * 16 + frame
  }

  function ClosureFrame(b: Byte): Byte {
    b % 16
  }

  function ClosureArity(b: Byte): Byte {
    b / 16
  }

  // A 16-bit signed integer as a 32-bit one.
  function Extended(x: Half): Word {
    if x < 0x8000 then x else x + 0xFFFF_0000
  }

  // (r << 0xf) | i
  function PackComplex(re: Half, im: Half): (w: Word)
  {
    PackComplexBits(re, im);
    Words.Or(Extended(re) * 0x8000 % 0x1_0000_0000, Extended(im))
  }

  // A negative second part wipes out the first.
  lemma PackComplexBits(re: Half, im: Half)
    ensures Words.Or(Extended(re) * 0x8000 % 0x1_0000_0000, Extended(im))
      == (if im < 0x8000 then Extended(re) % 0x2_0000 * 0x8000 else 0xFFFF_8000) + im % 0x8000
  {
    hide Words.Or, Words.Pow2;
    Powers();
    var high, low, upper: nat := Extended(re) % 0x2_0000, im % 0x8000, if im < 0x8000 then 0 else 0x1_FFFF;
    assert Extended(re) * 0x8000 % 0x1_0000_0000 == high * 0x8000 + 0;
    assert Extended(im) == upper * 0x8000 + low;
    Words.OrSplit(high, 0, upper, low, 15);
    Words.OrZero(high);
    Words.OrZero(low);
    Words.OrOnes(high, 17);
  }

  lemma Powers()
    ensures Words.Pow2(10) == 0x400 && Words.Pow2(15) == 0x8000 && Words.Pow2(16) == 0x1_0000 && Words.Pow2(17) == 0x2_0000
  {
  }

  lemma {:induction false} OrBelow(a: nat, b: nat, k: nat)
    requires a < Words.Pow2(k) && b < Words.Pow2(k)
    ensures Words.Or(a, b) < Words.Pow2(k)
  {
    if k != 0 {
      OrBelow(a / 2, b / 2, k - 1);
    }
  }

  // (size << 10) | (entry << 16)
  function PackClosure(frame: Byte, entry: Half): (w: Word)
  {
    PackClosureBits(frame, entry);
    Words.Or(frame * 0x400, entry * 0x1_0000)
  }

  // Frame bits from the seventh on run into the entry.
  lemma PackClosureBits(frame: Byte, entry: Half)
    ensures Words.Or(frame * 0x400, entry * 0x1_0000) == Words.Or(frame / 64, entry) * 0x1_0000 + frame % 64 * 0x400
    ensures Words.Or(frame / 64, entry) < 0x1_0000
  {
    hide Words.Or, Words.Pow2;
    Powers();
    Words.OrSplit(frame / 64, frame % 64 * 0x400, entry, 0, 16);
    Words.OrZero(frame % 64 * 0x400);
    OrBelow(frame / 64, entry, 16);
  }

  lemma LayoutParts(high: nat, f: nat, a: nat)
    requires f < 64 && a < 0x400
    ensures var w := high * 0x1_0000 + (f * 0x400 + a); w % 0x400 == a && w / 0x400 % 64 == f && w / 0x1_0000 == high
  {
  }

  /**
    The layout of inc/object.h for a closure on the stack: env, size and entry
    in ten, six and sixteen bits.  They come back exactly when they fit.
  */
  lemma StackClosureLayout(env: Half, frame: Byte, entry: Half)
    ensures var w := Words.Or(Words.Or(env, frame * 0x400), entry * 0x1_0000);
      w % 0x400 == env && w / 0x400 % 64 == frame && w / 0x1_0000 == entry <==> env < 0x400 && frame < 64
  {
    hide Words.Or, Words.Pow2;
    Powers();
    var a, f := env % 0x400, env / 0x400;
    Words.OrSplit(f, a, frame, 0, 10);
    Words.OrZero(a);
    var low := Words.Or(f, frame);
    OrBelow(f, frame, 10);
    assert low * 0x400 + a == low / 64 * 0x1_0000 + (low % 64 * 0x400 + a);
    Words.OrSplit(low / 64, low % 64 * 0x400 + a, entry, 0, 16);
    Words.OrZero(low % 64 * 0x400 + a);
    LayoutParts(Words.Or(low / 64, entry), low % 64, a);
    if env < 0x400 && frame < 64 {
      Words.OrZero(frame);
      Words.OrZero(entry);
    }
  }

  // The fields an instruction of the grammar can have.
  predicate InGrammar(i: Instruction) {
    match i
    case LocalRef(x) => x < 288
    case CallLocal(x) => x < 288
    case LocalAssign(x) => x < 4096
    case FreeRef(up, x) => up < 64 && x < 64
    case CallFree(up, x) => up < 64 && x < 64
    case FreeAssign(up, x) => up < 64 && x < 64
    case Prelude(mode, arity) => mode < 4 && arity < 64
    case GlobalAssign(x) => x < 128 + 0x1_0000
    case GlobalRef(x) => x < 128 + 0x1_0000
    case CallGlobal(x) => x < 0x1_0000
    case ClosureOnHeap(arity, frame, _) => arity < 16 && frame < 16
    case Primitive(n) => n < 16 + 0x1000
    case General(Text(s)) => 0 !in s
    case General(Keyword(s)) => 0 !in s
    case General(ComplexInexact(s)) => |s| == 8
    case General(ByteVector(_, s)) => |s| < 0x1_0000
    case General(ComplexWord(_)) => false
    case General(FreshVector(_)) => false
    case Nothing => false
    case StackClosure(_) => false
    case _ => true
  }

  // What the code makes of an instruction that it reads right: most constants
  // are stored as they are.
  function Stored(i: Instruction): Instruction {
    match i
    case ClosureOnStack(frame, entry) => StackClosure(PackClosure(frame, entry))
    case General(ComplexExact(re, im)) => General(ComplexWord(PackComplex(re, im)))
    case General(ByteVector(true, s)) => General(FreshVector(if |s| < 0x1_0000 then |s| else 0))
    case _ => i
  }

  // The instruction i can be told from d, what the code makes of it: the reader
  // takes the parts of a number or a closure from where the shifts of the code
  // put them, and only an empty vector says what is in it.  The code's printer
  // takes fewer bits of a number: PrintedParts.
  predicate Shows(d: Instruction, i: Instruction) {
    match d
    case StackClosure(w) => i == ClosureOnStack(w / 0x400 % 64, w / 0x1_0000)
    case General(ComplexWord(w)) => i == General(ComplexExact(w / 0x8000 % 0x1_0000, w % 0x8000))
    case General(FreshVector(n)) => n == 0 && i == General(ByteVector(true, []))
    case _ => d == i
  }

  // The instructions whose bytes the decoder takes for what the grammar says.
  predicate ReadRight(i: Instruction) {
    match i
    case LocalRef(x) => x < 256
    case CallLocal(x) => x < 256
    case LocalAssign(x) => x < 256
    case GlobalAssign(x) => x < 256
    case GlobalRef(x) => x < 256
    case CallGlobal(x) => x < 256
    case VectorRef(_, _) => false
    case VectorSet(_, _, _) => false
    case General(Text(s)) => |s| <= MAX_STR_LEN
    case General(Keyword(s)) => |s| <= MAX_STR_LEN
    case EmptyList => false
    case Unspecified => false
    case Nothing => false
    case _ => true
  }

  // Those that keep all their parts when they are stored.
  predicate Kept(i: Instruction) {
    match i
    case ClosureOnStack(frame, _) => frame < 64
    case General(ComplexExact(_, im)) => im < 0x8000
    case General(ByteVector(mutable, s)) => !mutable || s == []
    case _ => true
  }

  predicate Faithful(i: Instruction) {
    ReadRight(i) && Kept(i)
  }

  // The shapes an encoding can have after the first byte.
  function Bare(form: Byte, data: Byte): Bytes
    requires form < 16 && data < 16
  {
    [Opcode(form, data)]
  }

  function WithByte(form: Byte, data: Byte, b: Byte): Bytes
    requires form < 16 && data < 16
  {
    [Opcode(form, data), b]
  }

  function WithWord(form: Byte, data: Byte, x: Half): Bytes
    requires form < 16 && data < 16
  {
    [Opcode(form, data)] + Two(x)
  }

  function WithClosure(data: Byte, b: Byte, entry: Half): Bytes
    requires data < 16
  {
    [Opcode(8, data), b] + Two(entry)
  }

  function EncodeLocal(low: Byte, high: Byte, far: Byte, x: Half): Bytes
    requires low < 16 && high < 16 && far < 16 && x < 288
  {
    if x < 16 then
      Bare(low, x)
    else if x < 32 then
      Bare(high, (x - 16))
    else
      WithByte(0xA, far, (x - 32))
  }

  function EncodeFree(form: Byte, up: Byte, x: Half): Bytes
    requires form < 16 && up < 64 && x < 64
  {
    WithByte(form, FreeData(x), FreeByte(up, x))
  }

  function EncodeGlobal(near: Byte, far: Byte, bias: Word, x: Word): Bytes
    requires near < 16 && far < 16
    requires x < 256 || 0 <= x - bias < 0x1_0000
  {
    if x < 256 then WithByte(0xA, near, x) else WithWord(0xB, far, (x - bias))
  }

  function EncodePrimitive(n: Half): Bytes
    requires n < 16 + 0x1000
  {
    if n < 16 then Bare(0xC, n) else WithByte(0xD, High(n - 16), Low(n - 16))
  }

  // obj_type codes
  function EncodeObject(o: Object): Bytes
    requires InGrammar(General(o))
  {
    match o
    case Integer(x) => [0] + Four(x)
    case Text(s) => [8] + s + [0]
    case Keyword(s) => [2] + s + [0]
    case Procedure(entry, arity, opt) => [9] + Two(entry) + [arity, opt]
    case Prim(x) => [10] + Four(x)
    case Pair => [3]
    case ListOf(n) => [7] + Two(n)
    case VectorOf(n) => [5] + Two(n)
    case Real(x) => [13] + Four(x)
    case Rational(negative, n, d) => [if negative then 15 else 14] + Two(n) + Two(d)
    case ComplexExact(x, y) => [16] + Two(x) + Two(y)
    case ComplexInexact(s) => [17] + s
    case ByteVector(mutable, s) => [if mutable then 22 else 21] + Two(|s|) + s
  }

  // The bytes the grammar gives an instruction.
  function Encode(i: Instruction): Bytes
    requires InGrammar(i)
  {
    match i
    case LocalRef(x) => EncodeLocal(0, 1, 1, x)
    case CallLocal(x) => EncodeLocal(4, 5, 2, x)
    case LocalAssign(x) => WithByte(7, High(x), Low(x))
    case FreeRef(up, x) => EncodeFree(2, up, x)
    case CallFree(up, x) => EncodeFree(3, up, x)
    case FreeAssign(up, x) => EncodeFree(6, up, x)
    case Prelude(mode, arity) => WithByte(0xA, 0, PreludeByte(mode, arity))
    case GlobalAssign(x) => EncodeGlobal(3, 4, 128, x)
    case GlobalRef(x) => EncodeGlobal(4, 5, 128, x)
    case CallGlobal(x) => EncodeGlobal(5, 6, 0, x)
    case CallProc(x) => WithWord(0xB, 0, x)
    case JumpIfFalse(x) => WithWord(0xB, 1, x)
    case Jump(x) => WithWord(0xB, 2, x)
    case VectorRef(v, x) => WithByte(0xB, 3, v) + [x]
    case VectorSet(v, x, y) => WithByte(8, 0, v) + [x, y]
    case ClosureOnHeap(arity, frame, entry) => WithClosure(1, ClosureByte(arity, frame), entry)
    case ClosureOnStack(frame, entry) => WithClosure(2, frame, entry)
    case Primitive(n) => EncodePrimitive(n)
    case False => Bare(0xE, 0)
    case True => Bare(0xE, 1)
    case General(o) => Bare(0xE, 2) + EncodeObject(o)
    case Character(c) => WithByte(0xE, 3, c)
    case EmptyList => Bare(0xE, 4)
    case Unspecified => Bare(0xE, 5)
    case Symbol(x) => WithWord(0xE, 6, x)
    case Halt => Bare(0xF, 0xF)
  }

  // What one dispatch reads: an instruction and the bytes after it, a panic, or
  // the end of the code segment inside the instruction.
  datatype Decoded = Read(ins: Instruction, rest: Bytes) | Panic | Short

  // interp_single_encode
  function DecodeSingle(form: Byte, data: Byte, s: Bytes): Decoded
    requires form < 8 && data < 16
  {
    if form == 0 then
      Read(LocalRef(data), s)
    else if form == 1 then
      Read(LocalRef(data + 16), s)
    else if form == 4 then
      Read(CallLocal(data), s)
    else if form == 5 then
      Read(CallLocal(data + 16), s)
    else if s == [] then
      Short
    else if form == 7 then
      Read(LocalAssign(Word16(data, s[0]) % 256), s[1..])
    else
      var up, offset := FreeUp(s[0]), FreeOffset(data, s[0]);
      Read(if form == 2 then FreeRef(up, offset) else if form == 3 then CallFree(up, offset) else FreeAssign(up, offset),
           s[1..])
  }

  // interp_double_encode; offset is a u8_t.
  function DecodeDouble(op: Byte, data: Byte, s: Bytes): Decoded {
    if op == 0 then
      Read(Prelude(PreludeMode(data), PreludeArity(data)), s)
    else if op == 1 then
      Read(LocalRef(HighOffset(data)), s)
    else if op == 2 then
      Read(CallLocal(HighOffset(data)), s)
    else if op == 3 then
      Read(GlobalAssign(data), s)
    else if op == 4 then
      Read(GlobalRef(data), s)
    else if op == 5 then
      Read(CallGlobal(data), s)
    else
      Panic
  }

  // interp_triple_encode; the extended globals read a byte of their own.
  function DecodeTriple(op: Byte, b: Byte, c: Byte, s: Bytes): Decoded {
    if op == 0 then
      Read(CallProc(Word16(b, c)), s)
    else if op == 1 then
      Read(JumpIfFalse(Word16(b, c)), s)
    else if op == 2 then
      Read(Jump(Word16(b, c)), s)
    else if 4 <= op <= 6 then
      if s == [] then
        Short
      else
        var index := s[0] as int + 256;
        Read(if op == 4 then GlobalAssign(index) else if op == 5 then GlobalRef(index) else CallGlobal(index), s[1..])
    else
      Panic
  }

  // interp_quadruple_encode
  function DecodeQuadruple(op: Byte, b: Byte, c: Byte, d: Byte, s: Bytes): Decoded {
    if op == 1 then
      Read(ClosureOnHeap(ClosureArity(b), ClosureFrame(b), Word16(c, d)), s)
    else if op == 2 then
      Read(StackClosure(PackClosure(b, Word16(c, d))), s)
    else
      Panic
  }

  // os_strnlen
  function StringLength(s: Bytes, limit: nat): (n: nat)
    ensures n <= limit && n <= |s|
    ensures 0 !in s[..n]
    ensures n == limit || n == |s| || s[n] == 0
  {
    if limit == 0 || s == [] || s[0] == 0 then 0 else StringLength(s[1..], limit - 1) + 1
  }

  function DecodeText(keyword: bool, s: Bytes): Decoded {
    var n := StringLength(s, MAX_STR_LEN);
    if n == |s| then
      Short
    else
      Read(General(if keyword then Keyword(s[..n]) else Text(s[..n])), s[n + 1..])
  }

  function DecodeWord(code: Byte, s: Bytes): Decoded {
    if |s| < 4 then
      Short
    else
      var x := Word32(s[0], s[1], s[2], s[3]);
      Read(General(if code == 0 then Integer(x) else if code == 10 then Prim(x) else Real(x)), s[4..])
  }

  function DecodeCount(code: Byte, s: Bytes): Decoded {
    if |s| < 2 then
      Short
    else
      var n := Word16(s[0], s[1]);
      if code == 7 then
        Read(General(ListOf(n)), s[2..])
      else if code == 5 then
        Read(General(VectorOf(n)), s[2..])
      else if |s| - 2 < n then
        Short
      else
        Read(General(if code == 22 then FreshVector(n) else ByteVector(false, s[2..2 + n])), s[2 + n..])
  }

  function PairOf16(code: Byte, a: Byte, b: Byte, c: Byte, d: Byte): Object {
    if code == 9 then
      Procedure(Word16(a, b), c, d)
    else if code == 16 then
      ComplexWord(PackComplex(Word16(a, b), Word16(c, d)))
    else
      Rational(code == 15, Word16(a, b), Word16(c, d))
  }

  // generate_object; the type field has six bits.
  function DecodeObject(code: Byte, s: Bytes): Decoded {
    if code == 0 || code == 10 || code == 13 then
      DecodeWord(code, s)
    else if code == 8 || code == 2 then
      DecodeText(code == 2, s)
    else if code == 3 then
      Read(General(Pair), s)
    else if code == 7 || code == 5 || code == 21 || code == 22 then
      DecodeCount(code, s)
    else if code == 9 || code == 14 || code == 15 || code == 16 then
      if |s| < 4 then Short else Read(General(PairOf16(code, s[0], s[1], s[2], s[3])), s[4..])
    else if code == 17 then
      if |s| < 8 then Short else Read(General(ComplexInexact(s[..8])), s[8..])
    else
      Panic
  }

  // interp_special
  function DecodeSpecial(form: Byte, data: Byte, s: Bytes): Decoded
    requires data < 16
  {
    if form == 0xC then
      Read(Primitive(data), s)
    else if form == 0xD then
      if s == [] then Short else Read(Primitive(Word16(data, s[0]) + 16), s[1..])
    else if form == 0xE then
      if data == 0 then
        Read(False, s)
      else if data == 1 then
        Read(True, s)
      else if data == 2 then
        if s == [] then Short else DecodeObject(s[0] % 64, s[1..])
      else if data == 3 then
        if s == [] then Short else Read(Character(s[0]), s[1..])
      else if data == 6 then
        if |s| < 2 then Short else Read(Symbol(Word16(s[0], s[1])), s[2..])
      else
        Read(Nothing, s)
    else if form == 0xF then
      Read(if data == 0xF then Halt else Nothing, s)
    else
      Panic
  }

  // pre_fetch and dispatch
  function Dispatch(form: Byte, data: Byte, s: Bytes): Decoded
    requires data < 16
  {
    if form < 8 then
      DecodeSingle(form, data, s)
    else if form == 0xA then
      if s == [] then Short else DecodeDouble(data, s[0], s[1..])
    else if form == 0xB then
      if |s| < 2 then Short else DecodeTriple(data, s[0], s[1], s[2..])
    else if form == 8 then
      if |s| < 3 then Short else DecodeQuadruple(data, s[0], s[1], s[2], s[3..])
    else
      DecodeSpecial(form, data, s)
  }

  function Decode(s: Bytes): Decoded {
    if s == [] then Short else Dispatch(s[0] / 16, s[0] % 16, s[1..])
  }

  // What each packing of fields in a byte gives back.
  lemma FreeFields(up: Byte, x: Half)
    requires up < 64 && x < 64
    ensures FreeUp(FreeByte(up, x)) == up && FreeOffset(FreeData(x), FreeByte(up, x)) == x
  {
  }

  lemma OpcodeFields(form: Byte, data: Byte)
    requires form < 16 && data < 16
    ensures Opcode(form, data) / 16 == form && Opcode(form, data) % 16 == data
  {
  }

  lemma PreludeFields(mode: Byte, arity: Byte)
    requires mode < 4 && arity < 64
    ensures PreludeMode(PreludeByte(mode, arity)) == mode && PreludeArity(PreludeByte(mode, arity)) == arity
  {
  }

  lemma ClosureFields(arity: Byte, frame: Byte)
    requires arity < 16 && frame < 16
    ensures ClosureArity(ClosureByte(arity, frame)) == arity && ClosureFrame(ClosureByte(arity, frame)) == frame
  {
  }

  // An offset over 255 comes back 256 lower.
  lemma HighFields(x: Half)
    requires 32 <= x < 288
    ensures HighOffset((x - 32)) == x <==> x < 256
  {
  }

  // Decoding looks at the first byte, then at the shape behind it.
  lemma BareRead(form: Byte, data: Byte, s: Bytes)
    requires form < 16 && data < 16
    ensures Decode(Bare(form, data) + s) == Dispatch(form, data, s)
  {
    hide Dispatch, Opcode;
    OpcodeFields(form, data);
    assert (Bare(form, data) + s)[1..] == s;
  }

  lemma ByteRead(form: Byte, data: Byte, b: Byte, s: Bytes)
    requires form < 16 && data < 16
    ensures Decode(WithByte(form, data, b) + s) == Dispatch(form, data, [b] + s)
    ensures ([b] + s)[0] == b && ([b] + s)[1..] == s
  {
    hide Decode, Dispatch, Opcode;
    BareRead(form, data, [b] + s);
    assert WithByte(form, data, b) + s == Bare(form, data) + ([b] + s);
  }

  lemma WordRead(form: Byte, data: Byte, x: Half, s: Bytes)
    requires form < 16 && data < 16
    ensures var t := Two(x) + s;
      && Decode(WithWord(form, data, x) + s) == Dispatch(form, data, t)
      && |t| >= 2 && Word16(t[0], t[1]) == x && t[2..] == s
  {
    hide Decode, Dispatch, Opcode, High, Low, Word16;
    BareRead(form, data, Two(x) + s);
    TwoRead(x);
    assert WithWord(form, data, x) + s == Bare(form, data) + (Two(x) + s);
  }

  // The cases of the round trip.
  lemma LocalsRead(call: bool, x: Half, s: Bytes)
    requires x < 288
    ensures var i := if call then CallLocal(x) else LocalRef(x);
      var e := if call then EncodeLocal(4, 5, 2, x) else EncodeLocal(0, 1, 1, x);
      Decode(e + s) == Read(i, s) <==> x < 256
  {
    hide Decode, Bare, WithByte, HighOffset;
    if x < 16 {
      BareRead(if call then 4 else 0, x, s);
    } else if x < 32 {
      BareRead(if call then 5 else 1, (x - 16), s);
    } else {
      ByteRead(0xA, if call then 2 else 1, (x - 32), s);
      HighFields(x);
    }
  }

  lemma FreesRead(form: Byte, up: Byte, x: Half, s: Bytes)
    requires form in {2, 3, 6} && up < 64 && x < 64
    ensures Decode(EncodeFree(form, up, x) + s)
         == Read(if form == 2 then FreeRef(up, x) else if form == 3 then CallFree(up, x) else FreeAssign(up, x), s)
  {
    hide Decode, WithByte, FreeData, FreeByte, FreeUp, FreeOffset;
    ByteRead(form, FreeData(x), FreeByte(up, x), s);
    FreeFields(up, x);
  }

  function Global(near: Byte, x: Word): Instruction {
    if near == 3 then GlobalAssign(x) else if near == 4 then GlobalRef(x) else CallGlobal(x)
  }

  // Extended globals never come back: the decoder takes a byte of the next
  // instruction for the index.
  lemma GlobalsRead(near: Byte, bias: Word, x: Word, s: Bytes)
    requires 3 <= near <= 5
    requires x < 256 || 0 <= x - bias < 0x1_0000
    ensures Decode(EncodeGlobal(near, near + 1, bias, x) + s) == Read(Global(near, x), s) <==> x < 256
  {
    hide Decode, WithByte, WithWord, DecodeTriple, DecodeDouble;
    if x < 256 {
      NearGlobal(near, x, s);
    } else {
      FarGlobal(near, (x - bias), s);
    }
  }

  lemma NearGlobal(near: Byte, x: Byte, s: Bytes)
    requires 3 <= near <= 5
    ensures Decode(WithByte(0xA, near, x) + s) == Read(Global(near, x), s)
  {
    hide Decode, WithByte;
    ByteRead(0xA, near, x, s);
  }

  lemma FarGlobal(near: Byte, x: Half, s: Bytes)
    requires 3 <= near <= 5
    ensures var d := Decode(WithWord(0xB, near + 1, x) + s); d.Short? || (d.Read? && |d.rest| < |s|)
  {
    hide Decode, WithWord, Two, Word16;
    WordRead(0xB, near + 1, x, s);
  }

  lemma PreludesRead(mode: Byte, arity: Byte, s: Bytes)
    requires mode < 4 && arity < 64
    ensures Decode(WithByte(0xA, 0, PreludeByte(mode, arity)) + s) == Read(Prelude(mode, arity), s)
  {
    hide Decode, WithByte, PreludeByte, PreludeMode, PreludeArity;
    PreludeFields(mode, arity);
    ByteRead(0xA, 0, PreludeByte(mode, arity), s);
  }

  lemma LocalAssignsRead(x: Half, s: Bytes)
    requires x < 4096
    ensures Decode(WithByte(7, High(x), Low(x)) + s) == Read(LocalAssign(x), s) <==> x < 256
  {
    hide Decode, WithByte;
    ByteRead(7, High(x), Low(x), s);
  }

  lemma TargetsRead(x: Half, s: Bytes)
    ensures Decode(WithWord(0xB, 0, x) + s) == Read(CallProc(x), s)
    ensures Decode(WithWord(0xB, 1, x) + s) == Read(JumpIfFalse(x), s)
    ensures Decode(WithWord(0xB, 2, x) + s) == Read(Jump(x), s)
    ensures Decode(WithWord(0xE, 6, x) + s) == Read(Symbol(x), s)
  {
    hide Decode, WithWord, Word16, Two;
    WordRead(0xB, 0, x, s);
    WordRead(0xB, 1, x, s);
    WordRead(0xB, 2, x, s);
    WordRead(0xE, 6, x, s);
  }

  lemma VectorsRead(v: Byte, x: Byte, y: Byte, s: Bytes)
    ensures Decode(WithByte(0xB, 3, v) + [x] + s) == Panic
    ensures Decode(WithByte(8, 0, v) + [x, y] + s) == Panic
  {
    hide Decode, WithByte;
    ByteRead(0xB, 3, v, [x] + s);
    ByteRead(8, 0, v, [x, y] + s);
    assert WithByte(0xB, 3, v) + [x] + s == WithByte(0xB, 3, v) + ([x] + s);
    assert WithByte(8, 0, v) + [x, y] + s == WithByte(8, 0, v) + ([x, y] + s);
  }

  lemma ClosuresRead(data: Byte, b: Byte, entry: Half, s: Bytes)
    requires data in {1, 2}
    ensures Decode(WithClosure(data, b, entry) + s)
         == Read(if data == 1 then ClosureOnHeap(ClosureArity(b), ClosureFrame(b), entry) else StackClosure(PackClosure(b, entry)), s)
  {
    hide Decode, Opcode, High, Low, Word16, ClosureArity, ClosureFrame, PackClosure;
    TwoRead(entry);
    var tail := [b] + Two(entry) + s;
    BareRead(8, data, tail);
    assert tail[3..] == s;
    assert WithClosure(data, b, entry) + s == Bare(8, data) + tail;
  }

  lemma PrimitivesRead(n: Half, s: Bytes)
    requires n < 16 + 0x1000
    ensures Decode(EncodePrimitive(n) + s) == Read(Primitive(n), s)
  {
    hide Decode, Bare, WithByte, High, Low, Word16;
    if n < 16 {
      BareRead(0xC, n, s);
    } else {
      HighBelow(n - 16);
      TwoRead(n - 16);
      ByteRead(0xD, High(n - 16), Low(n - 16), s);
      assert n - 16 + 16 == n;
    }
  }

  lemma HighBelow(x: Half)
    ensures x < 0x1000 ==> High(x) < 16
  {
  }

  lemma {:induction false} StringLengthOf(s: Bytes, rest: Bytes, limit: nat)
    requires 0 !in s
    ensures StringLength(s + [0] + rest, limit) == if |s| <= limit then |s| else limit
  {
    if s != [] && limit != 0 {
      assert (s + [0] + rest)[1..] == s[1..] + [0] + rest;
      StringLengthOf(s[1..], rest, limit - 1);
    }
  }

  lemma TextsRead(keyword: bool, chars: Bytes, s: Bytes)
    requires 0 !in chars
    ensures DecodeText(keyword, chars + [0] + s) == Read(General(if keyword then Keyword(chars) else Text(chars)), s)
      <==> |chars| <= MAX_STR_LEN
  {
    hide StringLength;
    StringLengthOf(chars, s, MAX_STR_LEN);
    var all := chars + [0] + s;
    if |chars| <= MAX_STR_LEN {
      assert all[..|chars|] == chars && all[|chars| + 1..] == s;
    } else {
      assert |all[..MAX_STR_LEN]| != |chars|;
    }
  }

  lemma WordsRead(code: Byte, x: Word, s: Bytes)
    ensures DecodeWord(code, Four(x) + s)
      == Read(General(if code == 0 then Integer(x) else if code == 10 then Prim(x) else Real(x)), s)
  {
    hide High, Low, Upper, Lower, Word32;
    FourRead(x);
    assert (Four(x) + s)[4..] == s;
  }

  lemma CountsRead(code: Byte, n: Half, s: Bytes)
    requires code in {5, 7}
    ensures DecodeCount(code, Two(n) + s) == Read(General(if code == 7 then ListOf(n) else VectorOf(n)), s)
  {
    hide High, Low, Word16;
    TwoRead(n);
    assert (Two(n) + s)[2..] == s;
  }

  lemma ByteVectorsRead(mutable: bool, content: Bytes, s: Bytes)
    requires |content| < 0x1_0000
    ensures DecodeCount(if mutable then 22 else 21, Two(|content|) + content + s)
         == Read(General(if mutable then FreshVector(|content|) else ByteVector(false, content)), s)
  {
    hide High, Low, Word16;
    TwoRead(|content|);
    var tail := Two(|content|) + content + s;
    assert tail[2 + |content|..] == s && tail[2..2 + |content|] == content;
  }

  lemma Pairs16Read(code: Byte, x: Half, y: Half, s: Bytes)
    requires code in {14, 15, 16}
    ensures DecodeObject(code, Two(x) + Two(y) + s)
         == Read(General(if code == 16 then ComplexWord(PackComplex(x, y)) else Rational(code == 15, x, y)), s)
  {
    hide High, Low, Word16, PackComplex;
    TwoRead(x);
    TwoRead(y);
    assert (Two(x) + Two(y) + s)[4..] == s;
  }

  lemma ProceduresRead(entry: Half, arity: Byte, opt: Byte, s: Bytes)
    ensures DecodeObject(9, Two(entry) + [arity, opt] + s) == Read(General(Procedure(entry, arity, opt)), s)
  {
    hide High, Low, Word16;
    TwoRead(entry);
    assert (Two(entry) + [arity, opt] + s)[4..] == s;
  }

  predicate IsText(o: Object) {
    o.Integer? || o.Prim? || o.Real? || o.Text? || o.Keyword?
  }

  lemma TextObjectRead(o: Object, s: Bytes)
    requires InGrammar(General(o)) && IsText(o)
    ensures var e := EncodeObject(o); DecodeObject(e[0], e[1..] + s) == Read(Stored(General(o)), s) <==> ReadRight(General(o))
  {
    hide Two, Four, DecodeText, DecodeWord, DecodeCount, PairOf16, PackComplex, PackClosure;
    var e := EncodeObject(o);
    match o
    case Integer(x) => WordsRead(0, x, s); assert e[1..] == Four(x);
    case Prim(x) => WordsRead(10, x, s); assert e[1..] == Four(x);
    case Real(x) => WordsRead(13, x, s); assert e[1..] == Four(x);
    case Text(chars) => TextsRead(false, chars, s); assert e[1..] == chars + [0];
    case Keyword(chars) => TextsRead(true, chars, s); assert e[1..] == chars + [0];
  }

  lemma CountedObjectRead(o: Object, s: Bytes)
    requires InGrammar(General(o)) && (o.ListOf? || o.VectorOf? || o.ByteVector? || o.Pair?)
    ensures var e := EncodeObject(o); DecodeObject(e[0], e[1..] + s) == Read(Stored(General(o)), s)
  {
    hide Two, DecodeCount, PairOf16, ReadRight, PackComplex, PackClosure;
    var e := EncodeObject(o);
    match o
    case ListOf(n) => CountsRead(7, n, s); assert e[1..] == Two(n);
    case VectorOf(n) => CountsRead(5, n, s); assert e[1..] == Two(n);
    case ByteVector(mutable, b) =>
      ByteVectorsRead(mutable, b, s);
      assert e[1..] == Two(|b|) + b;
    case Pair => assert e[1..] + s == s;
  }

  lemma PairObjectRead(o: Object, s: Bytes)
    requires InGrammar(General(o)) && (o.Procedure? || o.Rational? || o.ComplexExact? || o.ComplexInexact?)
    ensures var e := EncodeObject(o); DecodeObject(e[0], e[1..] + s) == Read(Stored(General(o)), s)
  {
    hide Two, PairOf16, ReadRight, PackComplex, PackClosure;
    var e := EncodeObject(o);
    match o
    case Procedure(entry, arity, opt) => ProceduresRead(entry, arity, opt, s); assert e[1..] == Two(entry) + [arity, opt];
    case Rational(negative, n, d) =>
      Pairs16Read(if negative then 15 else 14, n, d, s);
      assert e[1..] == Two(n) + Two(d);
    case ComplexExact(x, y) => Pairs16Read(16, x, y, s); assert e[1..] == Two(x) + Two(y);
    case ComplexInexact(b) => assert e[1..] == b; assert (b + s)[8..] == s && (b + s)[..8] == b;
  }

  lemma OthersReadRight(o: Object)
    ensures !IsText(o) ==> ReadRight(General(o))
  {
  }

  lemma ObjectsRead(o: Object, s: Bytes)
    requires InGrammar(General(o))
    ensures Decode(Bare(0xE, 2) + EncodeObject(o) + s) == Read(Stored(General(o)), s) <==> ReadRight(General(o))
  {
    hide Decode, Bare, ReadRight, Stored, DecodeObject;
    var e := EncodeObject(o);
    var code := e[0];
    BareRead(0xE, 2, e + s);
    if IsText(o) {
      TextObjectRead(o, s);
    } else {
      if o.ListOf? || o.VectorOf? || o.ByteVector? || o.Pair? {
        CountedObjectRead(o, s);
      } else {
        PairObjectRead(o, s);
      }
      OthersReadRight(o);
    }
    assert Bare(0xE, 2) + e + s == Bare(0xE, 2) + (e + s);
    assert (e + s)[1..] == e[1..] + s;
    CodesKept(code);
  }

  // An object code has six bits.
  lemma CodesKept(code: Byte)
    ensures code < 64 ==> code % 64 == code
  {
  }

  predicate OnVariables(i: Instruction) {
    i.LocalRef? || i.CallLocal? || i.FreeRef? || i.CallFree? || i.FreeAssign?
  }

  predicate OnGlobals(i: Instruction) {
    i.GlobalAssign? || i.GlobalRef? || i.CallGlobal? || i.LocalAssign?
  }

  predicate OnTargets(i: Instruction) {
    i.CallProc? || i.JumpIfFalse? || i.Jump? || i.Symbol?
  }

  lemma VariablesRead(i: Instruction, s: Bytes)
    requires InGrammar(i) && OnVariables(i)
    ensures Decode(Encode(i) + s) == Read(Stored(i), s) <==> ReadRight(i)
  {
    hide Decode, WithByte, EncodeLocal, EncodeFree, EncodeGlobal, High, Low, PackComplex, PackClosure;
    match i
    case LocalRef(x) => LocalsRead(false, x, s);
    case CallLocal(x) => LocalsRead(true, x, s);
    case FreeRef(up, x) => FreesRead(2, up, x, s);
    case CallFree(up, x) => FreesRead(3, up, x, s);
    case FreeAssign(up, x) => FreesRead(6, up, x, s);
  }

  lemma GlobalVariablesRead(i: Instruction, s: Bytes)
    requires InGrammar(i) && OnGlobals(i)
    ensures Decode(Encode(i) + s) == Read(Stored(i), s) <==> ReadRight(i)
  {
    hide Decode, WithByte, EncodeLocal, EncodeFree, EncodeGlobal, High, Low, PackComplex, PackClosure;
    match i
    case LocalAssign(x) => LocalAssignsRead(x, s);
    case GlobalAssign(x) => GlobalsRead(3, 128, x, s);
    case GlobalRef(x) => GlobalsRead(4, 128, x, s);
    case CallGlobal(x) => GlobalsRead(5, 0, x, s);
  }

  lemma TargetInstructionsRead(i: Instruction, s: Bytes)
    requires InGrammar(i) && OnTargets(i)
    ensures Decode(Encode(i) + s) == Read(Stored(i), s) <==> ReadRight(i)
  {
    hide Decode, WithByte, WithWord, PackComplex, PackClosure;
    match i
    case CallProc(x) => TargetsRead(x, s);
    case JumpIfFalse(x) => TargetsRead(x, s);
    case Jump(x) => TargetsRead(x, s);
    case Symbol(x) => TargetsRead(x, s);
  }

  lemma OthersRead(i: Instruction, s: Bytes)
    requires InGrammar(i) && !OnVariables(i) && !OnGlobals(i) && !OnTargets(i)
    ensures Decode(Encode(i) + s) == Read(Stored(i), s) <==> ReadRight(i)
  {
    hide Decode, Bare, WithByte, WithClosure, ClosureByte, PreludeByte, EncodePrimitive, EncodeObject, PackComplex, PackClosure;
    match i
    case Prelude(mode, arity) => PreludesRead(mode, arity, s);
    case ClosureOnHeap(arity, frame, entry) =>
      ClosuresRead(1, ClosureByte(arity, frame), entry, s);
      ClosureFields(arity, frame);
    case ClosureOnStack(frame, entry) => ClosuresRead(2, frame, entry, s);
    case VectorRef(v, x) => VectorsRead(v, x, 0, s);
    case VectorSet(v, x, y) => VectorsRead(v, x, y, s);
    case Primitive(n) => PrimitivesRead(n, s);
    case General(o) => ObjectsRead(o, s);
    case _ => ConstantsRead(s);
  }

  lemma ConstantsRead(s: Bytes)
    ensures Decode(Bare(0xE, 0) + s) == Read(False, s)
    ensures Decode(Bare(0xE, 1) + s) == Read(True, s)
    ensures Decode(Bare(0xE, 4) + s) == Decode(Bare(0xE, 5) + s) == Read(Nothing, s)
    ensures Decode(Bare(0xF, 0xF) + s) == Read(Halt, s)
    ensures forall c :: Decode(WithByte(0xE, 3, c) + s) == Read(Character(c), s)
  {
    hide Decode, Bare, WithByte;
    BareRead(0xE, 0, s);
    BareRead(0xE, 1, s);
    BareRead(0xE, 4, s);
    BareRead(0xE, 5, s);
    BareRead(0xF, 0xF, s);
    forall c {
      ByteRead(0xE, 3, c, s);
    }
  }

  // The bytes are taken for what the grammar says, and no more and no fewer of
  // them, for exactly the instructions that are read right.
  lemma BytesTaken(i: Instruction, s: Bytes)
    requires InGrammar(i)
    ensures Decode(Encode(i) + s) == Read(Stored(i), s) <==> ReadRight(i)
  {
    hide Decode, Encode, ReadRight, Stored;
    if OnVariables(i) {
      VariablesRead(i, s);
    } else if OnGlobals(i) {
      GlobalVariablesRead(i, s);
    } else if OnTargets(i) {
      TargetInstructionsRead(i, s);
    } else {
      OthersRead(i, s);
    }
  }

  // Storing loses a part unless it is kept.
  lemma StoredShows(i: Instruction)
    requires InGrammar(i)
    ensures Shows(Stored(i), i) <==> Kept(i)
  {
    hide PackComplex, PackClosure;
    match i
    case ClosureOnStack(frame, entry) => ClosureParts(frame, entry);
    case General(ComplexExact(re, im)) => ComplexParts(re, im);
    case _ =>
  }

  lemma ComplexParts(re: Half, im: Half)
    ensures var w := PackComplex(re, im); w / 0x8000 % 0x1_0000 == re && w % 0x8000 == im <==> im < 0x8000
  {
    hide Words.Or;
    PackComplexBits(re, im);
  }

  // complex_exact_printer of print.c takes the second part from four bits.
  lemma PrintedParts(re: Half, im: Half)
    ensures var w := PackComplex(re, im); w / 0x8000 % 0x1_0000 == re && w % 16 == im <==> im < 16
  {
    hide Words.Or;
    PackComplexBits(re, im);
  }

  lemma ClosureParts(frame: Byte, entry: Half)
    ensures var w := PackClosure(frame, entry); w / 0x400 % 64 == frame && w / 0x1_0000 == entry <==> frame < 64
  {
    hide Words.Or, PackClosure;
    PackedClosure(frame, entry);
    LayoutParts(Words.Or(frame / 64, entry), frame % 64, 0);
    Words.OrZero(entry);
  }

  lemma PackedClosure(frame: Byte, entry: Half)
    ensures PackClosure(frame, entry) == Words.Or(frame / 64, entry) * 0x1_0000 + frame % 64 * 0x400
  {
    hide Words.Or;
    PackClosureBits(frame, entry);
  }

  // Two numbers that are one once they are stored, and an entry that has changed.
  lemma PartsLost()
    ensures PackComplex(0, 0xFFFF) == PackComplex(1, 0xFFFF) == 0xFFFF_FFFF
    ensures PackClosure(64, 0x1000) / 0x1_0000 == 0x1001
  {
    hide Words.Or;
    PackComplexBits(0, 0xFFFF);
    PackComplexBits(1, 0xFFFF);
    PackClosureBits(64, 0x1000);
    assert Words.Or(1, 0x1000) == 0x1001 by {
      OneMoreBit(0x1000);
    }
  }

  lemma OneMoreBit(a: nat)
    requires a % 2 == 0
    ensures Words.Or(1, a) == a + 1
  {
    Words.OrHalf(1, a);
    Words.OrZero(a / 2);
  }

  // What is read from the bytes of i, before s, shows i and stops at their end.
  predicate ReadsBack(i: Instruction, s: Bytes)
    requires InGrammar(i)
  {
    var d := Decode(Encode(i) + s);
    d.Read? && d.rest == s && Shows(d.ins, i)
  }

  /**
    Decoding what the grammar encodes gives the instruction back and stops at
    its end, whatever follows, for exactly the faithful instructions.
  */
  lemma RoundTrip(i: Instruction, s: Bytes)
    requires InGrammar(i)
    ensures ReadsBack(i, s) <==> Faithful(i)
  {
    hide Decode, Encode, InGrammar, ReadRight, Kept, Shows, Stored;
    BytesTaken(i, s);
    StoredShows(i);
    if !ReadRight(i) {
      WrongShowsOther(i, Decode(Encode(i) + s));
    }
  }

  // Nothing but itself shows an instruction that is read wrong.
  lemma WrongShowsOther(i: Instruction, d: Decoded)
    ensures !ReadRight(i) ==> Stored(i) == i
    ensures !ReadRight(i) && d.Read? && Shows(d.ins, i) ==> d.ins == i
  {
    hide PackComplex, PackClosure;
  }

  function EncodeAll(program: seq<Instruction>): Bytes
    requires forall i :: i in program ==> InGrammar(i)
  {
    if program == [] then [] else Encode(program[0]) + EncodeAll(program[1..])
  }

  // Instruction after instruction until the bytes are used up.
  function DecodeAll(s: Bytes): Option<seq<Instruction>>
    decreases |s|
  {
    if s == [] then
      Some([])
    else
      match Decode(s)
      case Read(i, rest) =>
        DecodeShortens(s);
        (match DecodeAll(rest)
         case Some(program) => Some([i] + program)
         case None => None)
      case _ => None
  }

  // Every instruction has bytes of its own.
  lemma DecodeShortens(s: Bytes)
    ensures Decode(s).Read? ==> |Decode(s).rest| < |s|
  {
    hide Word16, Word32, FreeUp, FreeOffset, HighOffset, PreludeMode, PreludeArity, ClosureArity, ClosureFrame, StringLength;
  }

  lemma DecodeAllStep(s: Bytes)
    ensures DecodeAll(s) ==
      if s == [] then Some([])
      else if Decode(s).Read? then Prepend([Decode(s).ins], DecodeAll(Decode(s).rest))
      else None
    ensures Decode(s).Read? ==> |Decode(s).rest| < |s|
  {
    hide Decode;
    DecodeShortens(s);
  }

  function Prepend(read: seq<Instruction>, later: Option<seq<Instruction>>): Option<seq<Instruction>> {
    match later
    case Some(program) => Some(read + program)
    case None => None
  }

  // A program as it was read shows a program that was written.
  predicate AllShow(read: seq<Instruction>, program: seq<Instruction>) {
    |read| == |program| && forall k :: 0 <= k < |program| ==> Shows(read[k], program[k])
  }

  predicate ProgramReadsBack(program: seq<Instruction>)
    requires forall i :: i in program ==> InGrammar(i)
  {
    var read := DecodeAll(EncodeAll(program));
    read.Some? && AllShow(read.value, program)
  }

  // The index of an extended global takes a byte that is not its own.
  predicate TakesNext(i: Instruction) {
    (i.GlobalAssign? || i.GlobalRef? || i.CallGlobal?) && i.index >= 256
  }

  function ObjectSize(o: Object): nat {
    match o
    case Text(s) => |s| + 2
    case Keyword(s) => |s| + 2
    case Pair => 1
    case ListOf(_) => 3
    case VectorOf(_) => 3
    case ComplexInexact(_) => 9
    case ByteVector(_, s) => |s| + 3
    case FreshVector(_) => 3
    case _ => 5
  }

  // The length of an encoding, and of what is stored the least length of an
  // encoding it can come from.
  function Size(i: Instruction): nat {
    match i
    case LocalRef(x) => if x < 32 then 1 else 2
    case CallLocal(x) => if x < 32 then 1 else 2
    case GlobalAssign(x) => if x < 256 then 2 else 3
    case GlobalRef(x) => if x < 256 then 2 else 3
    case CallGlobal(x) => if x < 256 then 2 else 3
    case CallProc(_) => 3
    case JumpIfFalse(_) => 3
    case Jump(_) => 3
    case Symbol(_) => 3
    case VectorRef(_, _) => 3
    case VectorSet(_, _, _) => 4
    case ClosureOnHeap(_, _, _) => 4
    case ClosureOnStack(_, _) => 4
    case StackClosure(_) => 4
    case Primitive(n) => if n < 16 then 1 else 2
    case False => 1
    case True => 1
    case EmptyList => 1
    case Unspecified => 1
    case Halt => 1
    case Nothing => 1
    case General(o) => 1 + ObjectSize(o)
    case _ => 2
  }

  lemma EncodedSize(i: Instruction)
    requires InGrammar(i)
    ensures |Encode(i)| == Size(i)
  {
    hide Opcode, High, Low, FreeData, FreeByte, PreludeByte, ClosureByte, Upper, Lower;
  }

  function Least(i: Instruction): nat {
    Size(i) + if TakesNext(i) then 1 else 0
  }

  lemma ShowsLeast(d: Instruction, i: Instruction)
    requires InGrammar(i) && Shows(d, i)
    ensures Least(d) == Least(i)
  {
  }

  // What is read from n bytes and then from s leaves the end of s, and takes at
  // least the bytes of an instruction.
  predicate Uses(d: Decoded, n: nat, s: Bytes) {
    d.Read? ==> |d.rest| <= |s| && d.rest == s[|s| - |d.rest|..] && n + |s| >= |d.rest| + Least(d.ins)
  }

  lemma SingleUses(form: Byte, data: Byte, s: Bytes)
    requires form < 8 && data < 16
    ensures Uses(DecodeSingle(form, data, s), 1, s)
  {
    hide FreeUp, FreeOffset, Word16;
  }

  lemma DoubleUses(op: Byte, data: Byte, s: Bytes)
    ensures Uses(DecodeDouble(op, data, s), 2, s)
  {
    hide PreludeMode, PreludeArity;
  }

  lemma TripleUses(op: Byte, b: Byte, c: Byte, s: Bytes)
    ensures Uses(DecodeTriple(op, b, c, s), 3, s)
  {
    hide Word16;
    if s != [] {
      assert s[1..] == s[|s| - |s[1..]|..];
    }
    assert s == s[|s| - |s|..];
  }

  lemma QuadrupleUses(op: Byte, b: Byte, c: Byte, d: Byte, s: Bytes)
    ensures Uses(DecodeQuadruple(op, b, c, d, s), 4, s)
  {
    hide Word16, PackClosure;
  }

  lemma TextUses(keyword: bool, s: Bytes)
    ensures Uses(DecodeText(keyword, s), 2, s)
  {
    hide StringLength;
  }

  lemma WordUses(code: Byte, s: Bytes)
    ensures Uses(DecodeWord(code, s), 2, s)
  {
    hide Word32;
  }

  lemma CountUses(code: Byte, s: Bytes)
    ensures Uses(DecodeCount(code, s), 2, s)
  {
    hide Word16;
  }

  lemma ObjectUses(code: Byte, s: Bytes)
    ensures Uses(DecodeObject(code, s), 2, s)
  {
    hide Word16, PackComplex, DecodeText, DecodeWord, DecodeCount;
    TextUses(code == 2, s);
    WordUses(code, s);
    CountUses(code, s);
  }

  // What is left after n bytes is an end of s.
  lemma Rests(s: Bytes, n: nat)
    requires n <= |s|
    ensures |s[n..]| == |s| - n && s[n..] == s[|s| - |s[n..]|..]
  {
  }

  lemma ObjectUsesMore(s: Bytes)
    requires s != []
    ensures Uses(DecodeObject(s[0] % 64, s[1..]), 1, s)
  {
    hide DecodeObject, Least;
    var d := DecodeObject(s[0] % 64, s[1..]);
    ObjectUses(s[0] % 64, s[1..]);
    if d.Read? {
      assert s[1..][|s[1..]| - |d.rest|..] == s[|s| - |d.rest|..];
    }
  }

  lemma SpecialUses(form: Byte, data: Byte, s: Bytes)
    requires data < 16
    ensures Uses(DecodeSpecial(form, data, s), 1, s)
  {
    hide DecodeObject, Word16;
    Rests(s, 0);
    if s != [] {
      Rests(s, 1);
      ObjectUsesMore(s);
    }
    if |s| >= 2 {
      Rests(s, 2);
    }
  }

  lemma DecodeUses(s: Bytes)
    ensures Uses(Decode(s), 0, s)
  {
    hide DecodeSingle, DecodeDouble, DecodeTriple, DecodeQuadruple, DecodeSpecial, Least;
    if s != [] {
      var d := Decode(s);
      DispatchUses(s[0] / 16, s[0] % 16, s[1..]);
      if d.Read? {
        assert s[1..][|s[1..]| - |d.rest|..] == s[|s| - |d.rest|..];
      }
    }
  }

  lemma DispatchUses(form: Byte, data: Byte, s: Bytes)
    requires data < 16
    ensures Uses(Dispatch(form, data, s), 1, s)
  {
    hide DecodeSingle, DecodeDouble, DecodeTriple, DecodeQuadruple, DecodeSpecial, Least;
    if form < 8 {
      SingleUses(form, data, s);
    } else if form == 0xA {
      if s != [] {
        DoubleUses(data, s[0], s[1..]);
      }
    } else if form == 0xB {
      if |s| >= 2 {
        TripleUses(data, s[0], s[1], s[2..]);
      }
    } else if form == 8 {
      if |s| >= 3 {
        QuadrupleUses(data, s[0], s[1], s[2], s[3..]);
      }
    } else {
      SpecialUses(form, data, s);
    }
  }

  function Sizes(program: seq<Instruction>): nat {
    if program == [] then 0 else Size(program[0]) + Sizes(program[1..])
  }

  lemma {:induction false} EncodedSizes(program: seq<Instruction>)
    requires forall i :: i in program ==> InGrammar(i)
    ensures |EncodeAll(program)| == Sizes(program)
  {
    hide Encode, Size, InGrammar;
    if program != [] {
      EncodedSize(program[0]);
      EncodedSizes(program[1..]);
    }
  }

  // No program is read from fewer bytes than its encoding has, and one with an
  // extended global only from more.
  lemma {:induction false} ProgramUses(s: Bytes, program: seq<Instruction>)
    requires (forall i :: i in program ==> InGrammar(i)) && DecodeAll(s).Some? && AllShow(DecodeAll(s).value, program)
    ensures |s| >= Sizes(program)
    ensures (exists i :: i in program && TakesNext(i)) ==> |s| > Sizes(program)
    decreases |s|
  {
    hide Decode, InGrammar, Shows, Size, TakesNext;
    var read := DecodeAll(s).value;
    if s != [] {
      var rest := Decode(s).rest;
      DecodeShortens(s);
      DecodeUses(s);
      assert read[0] == Decode(s).ins && read[1..] == DecodeAll(rest).value;
      assert Shows(read[0], program[0]);
      ShowsLeast(read[0], program[0]);
      ProgramUses(rest, program[1..]);
    }
  }

  // A program reads back as it was written if and only if all its instructions
  // are faithful.
  lemma {:induction false} ProgramRoundTrip(program: seq<Instruction>)
    requires forall i :: i in program ==> InGrammar(i)
    ensures ProgramReadsBack(program) <==> forall i :: i in program ==> Faithful(i)
  {
    hide Decode, Encode, InGrammar, Faithful, Shows;
    if program != [] {
      var first, later := program[0], program[1..];
      var tail := EncodeAll(later);
      var s := Encode(first) + tail;
      RoundTrip(first, tail);
      DecodeShortens(s);
      ProgramRoundTrip(later);
      assert program == [first] + later;
      if ProgramReadsBack(program) {
        var read := DecodeAll(s).value;
        assert Shows(read[0], first);
        NothingElseRead(first, later);
        assert read == [Decode(s).ins] + DecodeAll(tail).value;
      }
    }
  }

  lemma NothingElseRead(first: Instruction, later: seq<Instruction>)
    requires (forall i :: i in [first] + later ==> InGrammar(i)) && ProgramReadsBack([first] + later)
    ensures var d := Decode(Encode(first) + EncodeAll(later)); d.Read? && d.rest == EncodeAll(later)
  {
    hide Decode, Encode, InGrammar, Faithful, Shows, Size, TakesNext;
    var program := [first] + later;
    assert program[1..] == later;
    var tail := EncodeAll(later);
    var s := Encode(first) + tail;
    var d := Decode(s);
    DecodeShortens(s);
    DecodeUses(s);
    var read := DecodeAll(s).value;
    assert read[0] == d.ins && read[1..] == DecodeAll(d.rest).value;
    assert Shows(read[0], first);
    ShowsLeast(read[0], first);
    ProgramUses(d.rest, later);
    EncodedSize(first);
    EncodedSizes(later);
    assert s[|s| - |tail|..] == tail;
  }

  // What the decoder can read at all.
  predicate Readable(i: Instruction) {
    match i
    case GlobalAssign(x) => x < 512
    case GlobalRef(x) => x < 512
    case CallGlobal(x) => x < 512
    case Nothing => true
    case StackClosure(w) => w % 0x400 == 0
    case General(ComplexWord(w)) => w / 0x8000 < 0x8000 || w / 0x8000 >= 0x1_8000
    case General(FreshVector(_)) => true
    case _ => InGrammar(i) && ReadRight(i) && Stored(i) == i
  }

  // Any bytes that can be read give a faithful instruction, a constant as it is
  // stored, an extended global or nothing.
  lemma DecodedIsReadable(s: Bytes)
    ensures Decode(s).Read? ==> Readable(Decode(s).ins)
  {
    hide DecodeSingle, DecodeDouble, DecodeTriple, DecodeQuadruple, DecodeSpecial, Readable;
    if s != [] {
      var form, data, rest := s[0] / 16, s[0] % 16, s[1..];
      if form < 8 {
        SingleReadable(form, data, rest);
      } else if |rest| >= 3 {
        DoubleReadable(data, rest[0], rest[1..]);
        TripleReadable(data, rest[0], rest[1], rest[2..]);
        QuadrupleReadable(data, rest[0], rest[1], rest[2], rest[3..]);
      } else if |rest| >= 2 {
        DoubleReadable(data, rest[0], rest[1..]);
        TripleReadable(data, rest[0], rest[1], rest[2..]);
      } else if |rest| == 1 {
        DoubleReadable(data, rest[0], rest[1..]);
      }
      SpecialReadable(form, data, rest);
    }
  }

  lemma SingleReadable(form: Byte, data: Byte, s: Bytes)
    requires form < 8 && data < 16
    ensures var d := DecodeSingle(form, data, s); d.Read? ==> Readable(d.ins)
  {
    hide FreeUp, FreeOffset, Word16;
    if s != [] {
      FreeFits(data, s[0]);
    }
  }

  lemma FreeFits(data: Byte, b: Byte)
    requires data < 16
    ensures FreeUp(b) < 64 && FreeOffset(data, b) < 64
  {
  }

  lemma DoubleReadable(op: Byte, data: Byte, s: Bytes)
    ensures var d := DecodeDouble(op, data, s); d.Read? ==> Readable(d.ins)
  {
  }

  lemma TripleReadable(op: Byte, b: Byte, c: Byte, s: Bytes)
    ensures var d := DecodeTriple(op, b, c, s); d.Read? ==> Readable(d.ins)
  {
    hide Word16;
  }

  lemma QuadrupleReadable(op: Byte, b: Byte, c: Byte, d: Byte, s: Bytes)
    ensures var r := DecodeQuadruple(op, b, c, d, s); r.Read? ==> Readable(r.ins)
  {
    hide Word16, PackClosure, Words.Or;
    PackedClosure(b, Word16(c, d));
  }

  lemma SpecialReadable(form: Byte, data: Byte, s: Bytes)
    requires data < 16
    ensures var d := DecodeSpecial(form, data, s); d.Read? ==> Readable(d.ins)
  {
    hide DecodeObject, Word16;
    if s != [] {
      ObjectReadable(s[0] % 64, s[1..]);
      PrimitiveReadable(data, s[0]);
    }
  }

  lemma ObjectReadable(code: Byte, s: Bytes)
    ensures var d := DecodeObject(code, s); d.Read? ==> Readable(d.ins)
  {
    hide Word16, Word32, PackComplex;
    if |s| >= 4 {
      SignedWord(Word16(s[0], s[1]), Word16(s[2], s[3]));
    }
  }

  lemma SignedWord(re: Half, im: Half)
    ensures var w := PackComplex(re, im); w / 0x8000 < 0x8000 || w / 0x8000 >= 0x1_8000
  {
    hide Words.Or;
    PackComplexBits(re, im);
  }

  lemma PrimitiveReadable(data: Byte, b: Byte)
    requires data < 16
    ensures Word16(data, b) + 16 < 16 + 0x1000
  {
  }

  // So encoding what was read, or what a stored constant shows, changes nothing
  // about how it is read, but for an extended global.
  lemma ReencodedReadsTheSame(s: Bytes, i: Instruction, t: Bytes)
    requires Decode(s).Read? && InGrammar(i) && Shows(Decode(s).ins, i)
    ensures Decode(Encode(i) + t) == Read(Decode(s).ins, t) <==> !TakesNext(i)
  {
    hide Decode, Encode, Stored, ReadRight, Shows, InGrammar;
    var d := Decode(s).ins;
    DecodedIsReadable(s);
    BytesTaken(i, t);
    ReadableIsStored(d, i);
  }

  lemma ReadableIsStored(d: Instruction, i: Instruction)
    requires Readable(d) && InGrammar(i) && Shows(d, i)
    ensures Stored(i) == d
    ensures ReadRight(i) <==> !TakesNext(i)
  {
    hide InGrammar, PackComplex, PackClosure, Stored, ReadRight, TakesNext;
    if d.StackClosure? {
      ClosureWord(d.word);
    } else if d.General? && d.obj.ComplexWord? {
      SameWord(d.obj.bits);
    }
    if d == i {
      PlainReadable(d);
    } else {
      PackedReadable(i);
    }
  }

  lemma PlainReadable(d: Instruction)
    requires Readable(d) && InGrammar(d)
    ensures Stored(d) == d && (ReadRight(d) <==> !TakesNext(d))
  {
    hide PackComplex, PackClosure;
  }

  lemma PackedReadable(i: Instruction)
    ensures i.ClosureOnStack? ==> Stored(i) == StackClosure(PackClosure(i.frame, i.entry))
    ensures i.General? && i.obj.ComplexExact? ==> Stored(i) == General(ComplexWord(PackComplex(i.obj.re, i.obj.im)))
    ensures i == General(ByteVector(true, [])) ==> Stored(i) == General(FreshVector(0))
    ensures i.ClosureOnStack? || (i.General? && (i.obj.ComplexExact? || i.obj.ByteVector?)) ==> ReadRight(i) && !TakesNext(i)
  {
    hide PackComplex, PackClosure;
  }

  lemma ClosureWord(w: Word)
    requires w % 0x400 == 0
    ensures PackClosure(w / 0x400 % 64, w / 0x1_0000) == w
  {
    hide Words.Or;
    PackedClosure(w / 0x400 % 64, w / 0x1_0000);
    Words.OrZero(w / 0x1_0000);
  }

  lemma SameWord(w: Word)
    requires w / 0x8000 < 0x8000 || w / 0x8000 >= 0x1_8000
    ensures PackComplex(w / 0x8000 % 0x1_0000, w % 0x8000) == w
  {
    hide Words.Or;
    PackComplexBits(w / 0x8000 % 0x1_0000, w % 0x8000);
  }

  // What the faithful instructions of two and of four bytes are read as.
  lemma TwoByteForms(op: Byte, data: Byte, s: Bytes)
    requires op < 16
    ensures forall i :: InGrammar(i) && Faithful(i) && Encode(i) == WithByte(0xA, op, data) ==>
      DecodeDouble(op, data, s) == Read(i, s)
  {
    hide Decode, DecodeDouble, Encode, WithByte, InGrammar, Faithful, Shows;
    ByteRead(0xA, op, data, s);
    forall i | InGrammar(i) && Faithful(i) && Encode(i) == WithByte(0xA, op, data)
      ensures DecodeDouble(op, data, s) == Read(i, s)
    {
      RoundTrip(i, s);
      DoubleIsPlain(op, data, s, i);
    }
  }

  lemma DoubleIsPlain(op: Byte, data: Byte, s: Bytes, i: Instruction)
    ensures var d := DecodeDouble(op, data, s); d.Read? && Shows(d.ins, i) ==> d.ins == i
  {
  }

  lemma FourByteForms(op: Byte, b: Byte, c: Byte, d: Byte, s: Bytes)
    requires op < 16
    ensures forall i :: InGrammar(i) && Faithful(i) && Encode(i) == [Opcode(8, op), b, c, d] ==>
      var r := DecodeQuadruple(op, b, c, d, s); r.Read? && Shows(r.ins, i)
  {
    hide Decode, DecodeQuadruple, Encode, Opcode, InGrammar, Faithful, Shows;
    var t := [b, c, d] + s;
    BareRead(8, op, t);
    assert Bare(8, op) + t == [Opcode(8, op), b, c, d] + s && t[3..] == s;
    forall i | InGrammar(i) && Faithful(i) && Encode(i) == [Opcode(8, op), b, c, d]
      ensures var r := DecodeQuadruple(op, b, c, d, s); r.Read? && Shows(r.ins, i)
    {
      RoundTrip(i, s);
    }
  }

  // The code segment and the registers the decoder moves.
  class Fetcher {
    const code: Bytes
    var pc: nat
    var running: bool
    // The byte fetched last, which is fetched again past the end.
    var last: Byte

    constructor (code: Bytes)
      ensures this.code == code && pc == 0 && running
    {
      this.code := code;
      pc, running, last := 0, true, 0;
    }

    ghost function Rest(): Bytes
      reads this
    {
      if pc <= |code| then code[pc..] else []
    }

    // The state after a dispatch whose bytes decode to d and that came to r.
    ghost predicate Agrees(d: Decoded, r: Option<Instruction>)
      reads this
    {
      match d
      case Read(i, rest) => running && pc <= |code| && r == Some(i) && Rest() == rest
      case Panic => r == None
      case Short => !running || |code| < pc
    }

    // fetch_next_bytecode
    method NextData() returns (b: Byte)
      modifies this
      ensures old(running && pc < |code|) ==> running && pc == old(pc) + 1 && b == old(Rest())[0] && Rest() == old(Rest())[1..]
      ensures !old(running && pc < |code|) ==> !running && pc == old(pc)
    {
      if running && pc < |code| {
        last := code[pc];
        pc := pc + 1;
      } else {
        running := false;
      }
      b := last;
    }

    // vm_get_u16
    method GetHalf() returns (x: Half)
      modifies this
      ensures old(running) && |old(Rest())| >= 2 ==>
        running && pc == old(pc) + 2 && x == Word16(old(Rest())[0], old(Rest())[1]) && Rest() == old(Rest())[2..]
      ensures !(old(running) && |old(Rest())| >= 2) ==> !running
    {
      var high := NextData();
      var low := NextData();
      x := Word16(high, low);
    }

    // vm_get_uintptr
    method GetWord() returns (x: Word)
      modifies this
      ensures old(running) && |old(Rest())| >= 4 ==>
        && running && pc == old(pc) + 4 && Rest() == old(Rest())[4..]
        && x == Word32(old(Rest())[0], old(Rest())[1], old(Rest())[2], old(Rest())[3])
      ensures !(old(running) && |old(Rest())| >= 4) ==> !running
    {
      var a := NextData();
      var b := NextData();
      var c := NextData();
      var d := NextData();
      x := Word32(a, b, c, d);
    }

    // interp_single_encode
    method InterpSingle(form: Byte, data: Byte) returns (r: Option<Instruction>)
      requires form < 8 && data < 16 && running && pc <= |code|
      modifies this
      ensures Agrees(DecodeSingle(form, data, old(Rest())), r)
    {
      match form
      case 0 => r := Some(LocalRef(data));
      case 1 => r := Some(LocalRef(data + 16));
      case 4 => r := Some(CallLocal(data));
      case 5 => r := Some(CallLocal(data + 16));
      case 7 =>
        var low := NextData();
        r := Some(LocalAssign(Word16(data, low) % 256));
      case _ =>
        var frame := NextData();
        var up, offset := FreeUp(frame), FreeOffset(data, frame);
        r := Some(if form == 2 then FreeRef(up, offset) else if form == 3 then CallFree(up, offset) else FreeAssign(up, offset));
    }

    // interp_double_encode
    method InterpDouble(op: Byte, data: Byte) returns (r: Option<Instruction>)
      requires running && pc <= |code| && op < 16
      ensures Agrees(DecodeDouble(op, data, Rest()), r)
      ensures forall i :: InGrammar(i) && Faithful(i) && Encode(i) == WithByte(0xA, op, data) ==> r == Some(i)
      ensures r == None <==> op > 5
    {
      TwoByteForms(op, data, Rest());
      match op
      case 0 => r := Some(Prelude(PreludeMode(data), PreludeArity(data)));
      case 1 => r := Some(LocalRef(HighOffset(data)));
      case 2 => r := Some(CallLocal(HighOffset(data)));
      case 3 => r := Some(GlobalAssign(data));
      case 4 => r := Some(GlobalRef(data));
      case 5 => r := Some(CallGlobal(data));
      case _ => r := None;
    }

    // interp_triple_encode
    method InterpTriple(op: Byte, b: Byte, c: Byte) returns (r: Option<Instruction>)
      requires running && pc <= |code|
      modifies this
      ensures Agrees(DecodeTriple(op, b, c, old(Rest())), r)
    {
      match op
      case 0 => r := Some(CallProc(Word16(b, c)));
      case 1 => r := Some(JumpIfFalse(Word16(b, c)));
      case 2 => r := Some(Jump(Word16(b, c)));
      case 4 =>
        var x := NextData();
        r := Some(GlobalAssign(x as int + 256));
      case 5 =>
        var x := NextData();
        r := Some(GlobalRef(x as int + 256));
      case 6 =>
        var x := NextData();
        r := Some(CallGlobal(x as int + 256));
      case _ => r := None;
    }

    // interp_quadruple_encode
    method InterpQuadruple(op: Byte, b: Byte, c: Byte, d: Byte) returns (r: Option<Instruction>)
      requires running && pc <= |code| && op < 16
      ensures Agrees(DecodeQuadruple(op, b, c, d, Rest()), r)
      ensures forall i :: InGrammar(i) && Faithful(i) && Encode(i) == [Opcode(8, op), b, c, d] ==> r.Some? && Shows(r.value, i)
      ensures r == None <==> op != 1 && op != 2
    {
      FourByteForms(op, b, c, d, Rest());
      match op
      case 1 => r := Some(ClosureOnHeap(ClosureArity(b), ClosureFrame(b), Word16(c, d)));
      case 2 => r := Some(StackClosure(PackClosure(b, Word16(c, d))));
      case _ => r := None;
    }

    // os_strnlen at the program counter
    method StrNLen(limit: nat) returns (n: nat)
      ensures n == StringLength(Rest(), limit)
    {
      hide StringLength;
      n := 0;
      while n < limit && pc + n < |code| && code[pc + n] != 0
        invariant pc + n <= |code| || n == 0
        invariant n <= limit && StringLength(Rest(), limit) == n + StringLength(Rest()[n..], limit - n)
      {
        StringLengthStep(Rest()[n..], limit - n);
        assert Rest()[n..][1..] == Rest()[n + 1..];
        n := n + 1;
      }
      StringLengthStep(Rest()[n..], limit - n);
    }

    lemma StringLengthStep(s: Bytes, limit: nat)
      ensures StringLength(s, limit) == if limit == 0 || s == [] || s[0] == 0 then 0 else StringLength(s[1..], limit - 1) + 1
    {
    }

    // A pointer into the code, and the counter moved past what it points to.
    method Take(n: nat, past: nat) returns (content: Bytes)
      requires n <= past
      modifies this`pc
      ensures pc == old(pc) + past
      ensures past <= |old(Rest())| ==> content == old(Rest())[..n] && Rest() == old(Rest())[past..]
      ensures |old(Rest())| < past ==> |code| < pc
    {
      if pc + n <= |code| {
        content := code[pc..pc + n];
        assert content == Rest()[..n];
      } else {
        content := [];
      }
      assert pc + past <= |code| ==> code[pc + past..] == Rest()[past..];
      pc := pc + past;
    }

    method GetText(keyword: bool) returns (r: Option<Instruction>)
      requires running && pc <= |code|
      modifies this
      ensures Agrees(DecodeText(keyword, old(Rest())), r)
    {
      var n := StrNLen(MAX_STR_LEN);
      var chars := Take(n, n + 1);
      r := Some(General(if keyword then Keyword(chars) else Text(chars)));
    }

    method GetBytes(mutable: bool) returns (r: Option<Instruction>)
      requires running && pc <= |code|
      modifies this
      ensures Agrees(DecodeCount(if mutable then 22 else 21, old(Rest())), r)
    {
      hide DecodeCount, Word16;
      BytesDecoded(mutable, Rest());
      var size := GetHalf();
      var content := Take(size, size);
      r := Some(General(if mutable then FreshVector(size) else ByteVector(false, content)));
    }

    lemma BytesDecoded(mutable: bool, s: Bytes)
      ensures var d := DecodeCount(if mutable then 22 else 21, s);
        if |s| < 2 then d == Short
        else
          var n, t := Word16(s[0], s[1]), s[2..];
          d == if |t| < n then Short else Read(General(if mutable then FreshVector(n) else ByteVector(false, t[..n])), t[n..])
    {
      hide Word16;
      if |s| >= 2 {
        var n := Word16(s[0], s[1]);
        if 2 + n <= |s| {
          assert s[2..][..n] == s[2..2 + n] && s[2..][n..] == s[2 + n..];
        }
      }
    }

    // generate_object
    method GenerateObject(kind: Byte) returns (r: Option<Instruction>)
      requires running && pc <= |code|
      modifies this
      ensures Agrees(DecodeObject(kind, old(Rest())), r)
    {
      match kind
      case 0 =>
        var x := GetWord();
        r := Some(General(Integer(x)));
      case 10 =>
        var x := GetWord();
        r := Some(General(Prim(x)));
      case 13 =>
        var x := GetWord();
        r := Some(General(Real(x)));
      case 8 => r := GetText(false);
      case 2 => r := GetText(true);
      case 3 => r := Some(General(Pair));
      case 7 =>
        var n := GetHalf();
        r := Some(General(ListOf(n)));
      case 5 =>
        var n := GetHalf();
        r := Some(General(VectorOf(n)));
      case 21 => r := GetBytes(false);
      case 22 => r := GetBytes(true);
      case 9 =>
        var entry := GetHalf();
        var arity := NextData();
        var opt := NextData();
        r := Some(General(Procedure(entry, arity, opt)));
      case 14 =>
        var n := GetHalf();
        var d := GetHalf();
        r := Some(General(Rational(false, n, d)));
      case 15 =>
        var n := GetHalf();
        var d := GetHalf();
        r := Some(General(Rational(true, n, d)));
      case 16 =>
        var x := GetHalf();
        var y := GetHalf();
        r := Some(General(ComplexWord(PackComplex(x, y))));
      case 17 =>
        var content := Take(8, 8);
        r := Some(General(ComplexInexact(content)));
      case _ => r := None;
    }

    // interp_special
    method InterpSpecial(form: Byte, data: Byte) returns (r: Option<Instruction>)
      requires data < 16 && running && pc <= |code|
      modifies this
      ensures Agrees(DecodeSpecial(form, data, old(Rest())), r)
    {
      hide DecodeObject;
      match form
      case 0xC => r := Some(Primitive(data));
      case 0xD =>
        var low := NextData();
        r := Some(Primitive(Word16(data, low) + 16));
      case 0xE =>
        match data {
          case 0 => r := Some(False);
          case 1 => r := Some(True);
          case 2 =>
            var kind := NextData();
            if running {
              r := GenerateObject(kind % 64);
            } else {
              r := None;
            }
          case 3 =>
            var ch := NextData();
            r := Some(Character(ch));
          case 6 =>
            var offset := GetHalf();
            r := Some(Symbol(offset));
          case _ => r := Some(Nothing);
        }
      case 0xF => r := Some(if data == 0xF then Halt else Nothing);
      case _ => r := None;
    }

    // One turn of vm_run: fetch_next_bytecode, pre_fetch and dispatch.
    method Fetch() returns (r: Option<Instruction>)
      requires running
      modifies this
      ensures Agrees(Decode(old(Rest())), r)
    {
      hide DecodeSingle, DecodeDouble, DecodeTriple, DecodeQuadruple, DecodeSpecial;
      r := None;
      var first := NextData();
      if !running {
        return;
      }
      var form, data := first / 16, first % 16;
      if form < 8 {
        r := InterpSingle(form, data);
      } else if form == 0xA {
        var b := NextData();
        if running {
          r := InterpDouble(data, b);
        }
      } else if form == 0xB {
        var b := NextData();
        var c := NextData();
        if running {
          r := InterpTriple(data, b, c);
        }
      } else if form == 8 {
        var b := NextData();
        var c := NextData();
        var d := NextData();
        if running {
          r := InterpQuadruple(data, b, c, d);
        }
      } else {
        r := InterpSpecial(form, data);
      }
    }

    // The loop of vm_run over code that does not jump.
    method ReadAll() returns (ok: bool, read: seq<Instruction>)
      requires running && pc <= |code|
      modifies this
      ensures DecodeAll(old(Rest())) == if ok then Some(read) else None
      ensures ok ==> running && pc == |code|
    {
      hide Decode, DecodeAll;
      ok, read := true, [];
      PrependNothing([], DecodeAll(Rest()));
      while ok && pc < |code|
        invariant ok ==> running && pc <= |code|
        invariant DecodeAll(old(Rest())) == if ok then Prepend(read, DecodeAll(Rest())) else None
        decreases ok, |code| - pc
      {
        DecodeAllStep(Rest());
        var r := Fetch();
        if r.Some? && running && pc <= |code| {
          PrependMore(read, r.value, DecodeAll(Rest()));
          read := read + [r.value];
        } else {
          ok := false;
        }
      }
      DecodeAllStep(Rest());
      PrependNothing(read, None);
    }

    // On the bytes of a program this reads the program, and all of it, if and only
    // if its instructions are faithful.
    method ReadProgram(ghost program: seq<Instruction>) returns (ok: bool, read: seq<Instruction>)
      requires (forall i :: i in program ==> InGrammar(i)) && code == EncodeAll(program) && pc == 0 && running
      modifies this
      ensures ok && AllShow(read, program) <==> forall i :: i in program ==> Faithful(i)
    {
      hide Faithful, InGrammar, EncodeAll, DecodeAll, AllShow;
      ProgramRoundTrip(program);
      ok, read := ReadAll();
    }
  }

  lemma PrependNothing(read: seq<Instruction>, later: Option<seq<Instruction>>)
    ensures Prepend([], later) == later && Prepend(read, Some([])) == Some(read)
  {
    assert read + [] == read;
    if later.Some? {
      assert [] + later.value == later.value;
    }
  }

  lemma PrependMore(read: seq<Instruction>, i: Instruction, later: Option<seq<Instruction>>)
    ensures Prepend(read + [i], later) == Prepend(read, Prepend([i], later))
  {
    if later.Some? {
      assert read + [i] + later.value == read + ([i] + later.value);
    }
  }
}
