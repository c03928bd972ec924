/** Namespaces and track names as printed text, and back. */
module Namespace {
  import opened Wrappers
  import opened Bytes

  type Field = seq<byte>
  type Text = seq<byte>

  const DASH: byte := 0x2d
  const DOT: byte := 0x2e

  /** The size of the parser's field buffer. */
  const FIELD_BUFFER := 4096

  // ----- Printing -----

  /** Digits, letters and the underscore stand for themselves. */
  predicate Plain(b: byte) {
    0x30 <= b <= 0x39 || 0x41 <= b <= 0x5a || 0x61 <= b <= 0x7a || b == 0x5f
  }

  function Digit(v: nat): byte
    requires v < 16
  {
    if v < 10 then 0x30 + v else 0x57 + v
  }

  function RenderByte(b: byte): (t: Text)
    ensures |t| == if Plain(b) then 1 else 3
  {
    if Plain(b) then [b] else [DOT, Digit(b / 16), Digit(b % 16)]
  }

  function Render(f: Field): Text {
    if f == [] then [] else RenderByte(f[0]) + Render(f[1..])
  }

  /** A namespace as text. A separator goes in front of a field only when some text is already there. */
  function Str(ns: seq<Field>): Text {
    if ns == [] then []
    else
      var before := Str(ns[..|ns| - 1]);
      before + (if before == [] then [] else [DASH]) + Render(ns[|ns| - 1])
  }

  /** Printed text, byte by byte: digits, letters and the underscore as they are, anything else as a full
      stop and two digits of lower-case hexadecimal. */
  lemma PrintedByte(b: byte)
    ensures var digits := [48, 49, 50, 51, 52, 53, 54, 55, 56, 57, 97, 98, 99, 100, 101, 102];
            Render([b]) == if 48 <= b <= 57 || 65 <= b <= 90 || b == 95 || 97 <= b <= 122 then [b]
                           else [46, digits[b / 16], digits[b % 16]]
  {
    assert [b][1..] == [];
    DigitIs(b / 16);
    DigitIs(b % 16);
  }

  lemma DigitIs(v: nat)
    requires v < 16
    ensures Digit(v) == [48, 49, 50, 51, 52, 53, 54, 55, 56, 57, 97, 98, 99, 100, 101, 102][v]
  {
  }

  /** A field prints as its bytes do, one after the other. */
  lemma {:induction false} PrintedField(f: Field, g: Field)
    ensures Render(f + g) == Render(f) + Render(g)
  {
    if f == [] {
      assert f + g == g;
    } else {
      assert (f + g)[1..] == f[1..] + g;
      PrintedField(f[1..], g);
    }
  }

  /** A namespace prints as its fields with hyphens between them. */
  lemma PrintedFields(ns: seq<Field>, f: Field)
    ensures Str(ns + [f]) == if Str(ns) == [] then Render(f) else Str(ns) + [45] + Render(f)
  {
    assert (ns + [f])[..|ns|] == ns;
    var none: Text := [];
    assert none + none + Render(f) == Render(f);
  }

  // ----- Parsing -----

  function HexValue(c: byte): Option<nat> {
    if 0x30 <= c <= 0x39 then Some(c - 0x30)
    else if 0x61 <= c <= 0x66 then Some(c - 0x57)
    else if 0x41 <= c <= 0x46 then Some(c - 0x37)
    else None
  }

  /** The value of two hex digits. */
  function HexByte(hi: byte, lo: byte): (r: Option<byte>) {
    match (HexValue(hi), HexValue(lo))
    case (Some(h), Some(l)) => if 16 * h + l < 0x100 then Some(16 * h + l) else None
    case _ => None
  }

  /** The parser reads hexadecimal digits of either case. */
  lemma ReadsDigits(c: byte, v: nat)
    ensures HexValue(c) == Some(v)
       <==> v < 16 && (c as int == (if v < 10 then 48 + v else 97 + v - 10) || (v >= 10 && c as int == 65 + v - 10))
  {
  }

  lemma ReadsByte(hi: byte, lo: byte)
    ensures HexByte(hi, lo)
         == if HexValue(hi).Some? && HexValue(lo).Some? then Some(16 * HexValue(hi).value + HexValue(lo).value)
            else None
  {
    if HexValue(hi).Some? {
      ReadsDigits(hi, HexValue(hi).value);
    }
    if HexValue(lo).Some? {
      ReadsDigits(lo, HexValue(lo).value);
    }
  }

  function Prepend(s: Field, r: Option<Field>): Option<Field> {
    match r case None => None case Some(f) => Some(s + f)
  }

  function ParseField(t: Text): Option<Field> {
    if t == [] then Some([])
    else if Plain(t[0]) then Prepend([t[0]], ParseField(t[1..]))
    else if t[0] != DOT || |t| < 3 then None
    else
      match HexByte(t[1], t[2])
      case None => None
      case Some(b) => Prepend([b], ParseField(t[3..]))
  }

  /** The bytes the parser stores before it is through or gives up. */
  function Stored(t: Text): nat {
    if t == [] then 0
    else if Plain(t[0]) then 1 + Stored(t[1..])
    else if t[0] != DOT || |t| < 3 || HexByte(t[1], t[2]).None? then 0
    else 1 + Stored(t[3..])
  }

  /** The pieces of a text between separators. */
  function Fields(t: Text): (r: seq<Text>)
    ensures r != []
  {
    if t == [] then [[]]
    else
      var n := |t| - 1;
      var before := Fields(t[..n]);
      if t[n] == DASH then before + [[]]
      else before[..|before| - 1] + [before[|before| - 1] + [t[n]]]
  }

  function ParseAll(ts: seq<Text>): Option<seq<Field>> {
    if ts == [] then Some([])
    else
      match (ParseAll(ts[..|ts| - 1]), ParseField(ts[|ts| - 1]))
      case (Some(before), Some(f)) => Some(before + [f])
      case _ => None
  }

  /** What the parser makes of a text; the empty namespace is also its answer to a malformed one. */
  function FromStr(t: Text): seq<Field> {
    if t == [] then []
    else match ParseAll(Fields(t)) case None => [] case Some(ns) => ns
  }

  // ----- Round trips -----

  lemma HexRoundTrip(b: byte)
    ensures HexByte(Digit(b / 16), Digit(b % 16)) == Some(b)
  {
  }

  /** Parsing a printed field gives the field, for every byte string. */
  lemma {:induction false} FieldRoundTrip(f: Field)
    ensures ParseField(Render(f)) == Some(f) && Stored(Render(f)) == |f|
  {
    if f != [] {
      var head, rest := RenderByte(f[0]), Render(f[1..]);
      FieldRoundTrip(f[1..]);
      HexRoundTrip(f[0]);
      assert (head + rest)[|head|..] == rest;
      assert f == [f[0]] + f[1..];
    }
  }

  lemma {:induction false} RenderHasNoDash(f: Field)
    ensures DASH !in Render(f)
  {
    if f != [] {
      RenderHasNoDash(f[1..]);
    }
  }

  lemma FieldsSnoc(t: Text, c: byte)
    ensures var before := Fields(t);
            Fields(t + [c]) == if c == DASH then before + [[]]
                               else before[..|before| - 1] + [before[|before| - 1] + [c]]
  {
    assert (t + [c])[..|t|] == t;
  }

  lemma {:induction false} OneField(t: Text)
    requires DASH !in t
    ensures Fields(t) == [t]
  {
    if t != [] {
      OneField(t[..|t| - 1]);
      assert t == t[..|t| - 1] + [t[|t| - 1]];
    }
  }

  /** A separator splits a text into what is before and what is after it. */
  lemma {:induction false} FieldsJoin(a: Text, b: Text)
    ensures Fields(a + [DASH] + b) == Fields(a) + Fields(b)
  {
    hide Fields;
    if b == [] {
      FieldsSnoc(a, DASH);
      assert a + [DASH] + b == a + [DASH];
      NoText();
    } else {
      var n := |b| - 1;
      FieldsJoin(a, b[..n]);
      FieldsSnoc(a + [DASH] + b[..n], b[n]);
      FieldsSnoc(b[..n], b[n]);
      assert a + [DASH] + b == (a + [DASH] + b[..n]) + [b[n]] && b == b[..n] + [b[n]];
      var pre, post := Fields(a), Fields(b[..n]);
      assert (pre + post)[..|pre + post| - 1] == pre + post[..|post| - 1];
    }
  }

  lemma NoText()
    ensures Fields([]) == [[]]
  {
  }

  /** The namespaces that text can tell apart: an empty first field leaves no trace. */
  predicate Named(ns: seq<Field>) {
    ns != [] ==> ns[0] != []
  }

  function RenderEach(ns: seq<Field>): (r: seq<Text>)
    ensures |r| == |ns| && forall i :: 0 <= i < |r| ==> r[i] == Render(ns[i])
  {
    seq(|ns|, i requires 0 <= i < |ns| => Render(ns[i]))
  }

  lemma RenderSomething(f: Field)
    requires f != []
    ensures Render(f) != []
  {
  }

  /** The pieces of a printed namespace are its printed fields. */
  lemma {:induction false} FieldsOfStr(ns: seq<Field>)
    requires ns != [] && Named(ns)
    ensures Str(ns) != [] && Fields(Str(ns)) == RenderEach(ns)
  {
    hide Fields, Render, Str;
    var n := |ns| - 1;
    RenderHasNoDash(ns[n]);
    OneField(Render(ns[n]));
    if n == 0 {
      RenderSomething(ns[0]);
      StrOne(ns);
    } else {
      FieldsOfStr(ns[..n]);
      StrSnoc(ns);
      FieldsJoin(Str(ns[..n]), Render(ns[n]));
      assert RenderEach(ns) == RenderEach(ns[..n]) + [Render(ns[n])];
    }
  }

  lemma StrNone()
    ensures Str([]) == []
  {
  }

  lemma StrSnoc(ns: seq<Field>)
    requires ns != []
    ensures var before := Str(ns[..|ns| - 1]);
            Str(ns) == before + (if before == [] then [] else [DASH]) + Render(ns[|ns| - 1])
  {
  }

  lemma StrOne(ns: seq<Field>)
    requires |ns| == 1
    ensures Str(ns) == Render(ns[0])
  {
    assert Str(ns[..0]) == [];
  }

  lemma {:induction false} ParseRendered(ns: seq<Field>)
    ensures ParseAll(RenderEach(ns)) == Some(ns)
  {
    if ns != [] {
      var n := |ns| - 1;
      ParseRendered(ns[..n]);
      FieldRoundTrip(ns[n]);
      assert RenderEach(ns)[..n] == RenderEach(ns[..n]);
      assert ns == ns[..n] + [ns[n]];
    }
  }

  /** Printing a namespace and parsing the text gives the namespace back exactly when its first
      field, if it has one, is not empty; later fields may be. */
  lemma NamespaceRoundTrip(ns: seq<Field>)
    ensures FromStr(Str(ns)) == ns <==> Named(ns)
  {
    if ns != [] && Named(ns) {
      FieldsOfStr(ns);
      ParseRendered(ns);
    } else if ns != [] {
      DropEmptyFirst(ns);
      assert |ns[1..]| < |ns|;
      Shorter(ns[1..]);
    }
  }

  lemma {:induction false} DropEmptyFirst(ns: seq<Field>)
    requires ns != [] && ns[0] == []
    ensures Str(ns) == Str(ns[1..])
  {
    var n := |ns| - 1;
    if n == 0 {
      StrOne(ns);
      assert ns[1..] == [];
    } else {
      DropEmptyFirst(ns[..n]);
      assert ns[..n][1..] == ns[1..][..n - 1];
    }
  }

  /** Parsing a printed namespace never gives more fields than were printed. */
  lemma {:induction false} Shorter(ns: seq<Field>)
    ensures |FromStr(Str(ns))| <= |ns|
  {
    if ns != [] && ns[0] == [] {
      DropEmptyFirst(ns);
      Shorter(ns[1..]);
    } else if ns != [] {
      FieldsOfStr(ns);
      ParseRendered(ns);
    }
  }

  /** Different namespaces have different texts. */
  lemma StrIsInjective(a: seq<Field>, b: seq<Field>)
    requires Named(a) && Named(b)
    ensures Str(a) == Str(b) <==> a == b
  {
    NamespaceRoundTrip(a);
    NamespaceRoundTrip(b);
  }

  /** A namespace without the empty fields it starts with. */
  function Core(ns: seq<Field>): (r: seq<Field>)
    ensures Named(r)
  {
    if ns != [] && ns[0] == [] then Core(ns[1..]) else ns
  }

  lemma {:induction false} CoreHasItsText(ns: seq<Field>)
    ensures Str(Core(ns)) == Str(ns)
  {
    if ns != [] && ns[0] == [] {
      DropEmptyFirst(ns);
      CoreHasItsText(ns[1..]);
    }
  }

  /** Two namespaces have the same text if and only if they differ in nothing but the empty fields they start with. */
  lemma SameTextIff(a: seq<Field>, b: seq<Field>)
    ensures Str(a) == Str(b) <==> Core(a) == Core(b)
  {
    CoreHasItsText(a);
    CoreHasItsText(b);
    StrIsInjective(Core(a), Core(b));
  }

  /** The one namespace whose text the relay refuses in either letter case is the single field ".". */
  lemma ReservedNamespace(ns: seq<Field>)
    requires Named(ns)
    ensures Str(ns) == [DOT, 0x32, 0x65] || Str(ns) == [DOT, 0x32, 0x45] <==> ns == [[DOT]]
  {
    StrIsInjective(ns, [[DOT]]);
    NamespaceRoundTrip(ns);
    StrOne([[DOT]]);
    assert Render([DOT]) == [DOT, 0x32, 0x65];
    UpperCase();
  }

  /** The text with an upper-case digit parses to the same name, and so is no name's text. */
  lemma UpperCase()
    ensures FromStr([DOT, 0x32, 0x45]) == [[DOT]]
  {
    var t: Text := [DOT, 0x32, 0x45];
    OneField(t);
    assert HexByte(0x32, 0x45) == Some(DOT);
    hide Fields, ParseField, ParseAll;
    ParseEscape(t, DOT);
    ParseOne(t, [DOT]);
  }

  lemma ParseOne(t: Text, f: Field)
    requires ParseField(t) == Some(f)
    ensures ParseAll([t]) == Some([f])
  {
    hide ParseField;
    assert [t][..0] == [];
    var none: seq<Field> := [];
    assert none + [f] == [f];
  }

  lemma ParseEscape(t: Text, b: byte)
    requires |t| == 3 && t[0] == DOT && HexByte(t[1], t[2]) == Some(b)
    ensures ParseField(t) == Some([b])
  {
    hide HexByte;
    assert t[3..] == [];
    var none: Field := [];
    assert [b] + none == [b];
  }

  // ----- Prefixes -----

  lemma {:induction false} StrOfLonger(p: seq<Field>, c: seq<Field>)
    requires p != [] && Named(p) && p <= c
    ensures c == p || Str(p) + [DASH] <= Str(c)
  {
    hide Str, Fields, Render, RenderEach;
    if |c| > |p| {
      var n := |c| - 1;
      StrOfLonger(p, c[..n]);
      FieldsOfStr(p);
      StrSnoc(c);
    }
  }

  /** One namespace contains another exactly when its text is the other's, or is that followed by a separator. */
  lemma ContainsOnText(p: seq<Field>, c: seq<Field>)
    requires p != [] && Named(p) && Named(c)
    ensures p <= c <==> Str(p) == Str(c) || Str(p) + [DASH] <= Str(c)
  {
    hide Str, Fields, Render, RenderEach;
    if p <= c {
      StrOfLonger(p, c);
    } else {
      StrIsInjective(p, c);
      if Str(p) + [DASH] <= Str(c) {
        StrNone();
        var rest := Str(c)[|Str(p)| + 1..];
        assert Str(c) == Str(p) + [DASH] + rest;
        FieldsJoin(Str(p), rest);
        FieldsOfStr(p);
        FieldsOfStr(c);
        assert RenderEach(p) <= RenderEach(c);
        PrefixOfRendered(p, c);
      }
    }
  }

  lemma PrefixOfRendered(p: seq<Field>, c: seq<Field>)
    requires RenderEach(p) <= RenderEach(c)
    ensures p <= c
  {
    assert RenderEach(c[..|p|]) == RenderEach(p);
    ParseRendered(p);
    ParseRendered(c[..|p|]);
  }

  // ----- Tables -----

  datatype Op<V> = Insert(ns: seq<Field>, value: V) | Remove(ns: seq<Field>)

  /** A table keyed by the namespaces themselves. */
  function ByFields<V>(ops: seq<Op<V>>): map<seq<Field>, V> {
    if ops == [] then map[]
    else
      var before := ByFields(ops[..|ops| - 1]);
      match ops[|ops| - 1]
      case Insert(ns, v) => before[ns := v]
      case Remove(ns) => before - {ns}
  }

  /** The relay's table, keyed by their texts. */
  function ByText<V>(ops: seq<Op<V>>): map<Text, V> {
    if ops == [] then map[]
    else
      var before := ByText(ops[..|ops| - 1]);
      match ops[|ops| - 1]
      case Insert(ns, v) => before[Str(ns) := v]
      case Remove(ns) => before - {Str(ns)}
  }

  /** After any insertions and removals, both tables answer every look-up alike. */
  lemma {:induction false} TablesAgree<V>(ops: seq<Op<V>>, ns: seq<Field>)
    requires Named(ns) && forall op :: op in ops ==> Named(op.ns)
    ensures ns in ByFields(ops) <==> Str(ns) in ByText(ops)
    ensures ns in ByFields(ops) ==> ByFields(ops)[ns] == ByText(ops)[Str(ns)]
  {
    hide Str, Named;
    if ops != [] {
      var last := ops[|ops| - 1];
      assert last in ops && forall op :: op in ops[..|ops| - 1] ==> op in ops;
      TablesAgree(ops[..|ops| - 1], ns);
      StrIsInjective(last.ns, ns);
    }
  }

  // ----- Track names -----

  /** A track name is a single field, and any byte string, the empty one too, survives the round trip. */
  lemma TrackRoundTrip(name: Field)
    ensures ParseField(Render(name)) == Some(name)
    ensures forall other :: Render(name) == Render(other) <==> name == other
  {
    FieldRoundTrip(name);
    forall other
      ensures Render(name) == Render(other) <==> name == other
    {
      FieldRoundTrip(other);
    }
  }

  // ----- The library's own code -----

  lemma RenderSnoc(f: Field, i: nat)
    requires i < |f|
    ensures Render(f[..i + 1]) == Render(f[..i]) + RenderByte(f[i])
    decreases i
  {
    if i > 0 {
      RenderSnoc(f[1..], i - 1);
      assert f[1..][..i] == f[..i + 1][1..] && f[1..][..i - 1] == f[..i][1..];
    } else {
      assert f[..1][1..] == [] && f[..0] == [];
    }
  }

  lemma {:induction false} RenderGrows(f: Field, i: nat)
    requires i <= |f|
    ensures |Render(f[..i])| <= |Render(f)|
    decreases |f| - i
  {
    if i < |f| {
      RenderSnoc(f, i);
      RenderGrows(f, i + 1);
    } else {
      assert f[..i] == f;
    }
  }

  /** Prints an escape and its terminator into what room there is, as a bounded print does. */
  method PrintEscape(buffer: array<byte>, at: nat, room: nat, b: byte)
    requires 0 < room && at + room <= buffer.Length
    modifies buffer
    ensures var n := if room <= 3 then room - 1 else 3;
            && buffer[at..at + n] == [DOT, Digit(b / 16), Digit(b % 16)][..n] && buffer[at + n] == 0
            && (forall j | 0 <= j < buffer.Length && !(at <= j < at + room) :: buffer[j] == old(buffer[j]))
  {
    var text := [DOT, Digit(b / 16), Digit(b % 16)];
    var n: nat := if room <= 3 then room - 1 else 3;
    for i := 0 to n
      invariant buffer[at..at + i] == text[..i]
      invariant forall j | 0 <= j < buffer.Length && !(at <= j < at + room) :: buffer[j] == old(buffer[j])
    {
      buffer[at + i] := text[i];
      assert buffer[at..at + i + 1] == buffer[at..at + i] + [text[i]];
    }
    buffer[at + n] := 0;
  }

  lemma Joined(buffer: array<byte>, a: nat, b: nat, c: nat)
    requires a <= b <= c <= buffer.Length
    ensures buffer[a..c] == buffer[a..b] + buffer[b..c]
  {
  }

  lemma PrependNone(r: Option<Field>)
    ensures Prepend([], r) == r
  {
    var none: Field := [];
    assert r.Some? ==> none + r.value == r.value;
  }

  lemma PrependTwice(a: Field, b: Field, r: Option<Field>)
    ensures Prepend(a, Prepend(b, r)) == Prepend(a + b, r)
  {
    if r.Some? {
      assert a + (b + r.value) == a + b + r.value;
    }
  }

  lemma RenderNone()
    ensures Render([]) == []
  {
  }

  /** Prints one byte and a terminator, if there is room for both. */
  method PrintByte(buffer: array<byte>, at: nat, room: nat, b: byte) returns (n: nat)
    requires 0 < room && at + room <= buffer.Length
    modifies buffer
    ensures n == |RenderByte(b)|
    ensures n < room ==> buffer[at..at + n] == RenderByte(b) && buffer[at + n] == 0
    ensures forall j | 0 <= j < buffer.Length && !(at <= j < at + room) :: buffer[j] == old(buffer[j])
  {
    if Plain(b) {
      buffer[at] := b;
      n := 1;
    } else {
      PrintEscape(buffer, at, room, b);
      n := 3;
    }
    if n < room {
      buffer[at + n] := 0;
    }
  }

  /** Prints byte `i` of a field behind what is printed of it already. */
  method PrintNext(data: Field, i: nat, buffer: array<byte>, at: nat, offset: nat, room: nat) returns (end: nat)
    requires at + room <= buffer.Length && i < |data|
    requires offset == |Render(data[..i])| < room && buffer[at..at + offset] == Render(data[..i])
    modifies buffer
    ensures end == |Render(data[..i + 1])|
    ensures end < room ==> buffer[at..at + end] == Render(data[..i + 1]) && buffer[at + end] == 0
    ensures forall j | 0 <= j < buffer.Length && !(at <= j < at + room) :: buffer[j] == old(buffer[j])
  {
    hide Render, RenderByte;
    RenderSnoc(data, i);
    ghost var printed := buffer[at..at + offset];
    var n := PrintByte(buffer, at + offset, room - offset, data[i]);
    assert buffer[at..at + offset] == printed;
    end := offset + n;
    if end < room {
      Joined(buffer, at, at + offset, at + end);
    }
  }

  /** Prints a field behind what the buffer has up to `at`, with `room` bytes left there. The
      result tells how much was or would be printed: it is less than the room exactly when it all fits. */
  method RenderInto(data: Field, buffer: array<byte>, at: nat, room: nat) returns (offset: nat)
    requires at + room <= buffer.Length
    modifies buffer
    ensures offset < room <==> |Render(data)| < room
    ensures offset < room ==> offset == |Render(data)| && buffer[at..at + offset] == Render(data)
    ensures offset < room && data != [] ==> buffer[at + offset] == 0
    ensures forall j | 0 <= j < buffer.Length && !(at <= j < at + room) :: buffer[j] == old(buffer[j])
    ensures data == [] && at < buffer.Length ==> buffer[at] == old(buffer[at])
  {
    hide Render, RenderByte, Plain, Digit;
    RenderNone();
    if data == [] || room == 0 {
      return 0;
    }
    offset := 0;
    assert data[..0] == [] && buffer[at..at] == [];
    for i := 0 to |data|
      invariant offset == |Render(data[..i])| < room
      invariant buffer[at..at + offset] == Render(data[..i])
      invariant i > 0 ==> buffer[at + offset] == 0
      invariant forall j | 0 <= j < buffer.Length && !(at <= j < at + room) :: buffer[j] == old(buffer[j])
    {
      offset := PrintNext(data, i, buffer, at, offset, room);
      if offset >= room {
        RenderGrows(data, i + 1);
        return;
      }
    }
    assert data[..|data|] == data;
  }

  lemma {:induction false} StrGrows(ns: seq<Field>, i: nat)
    requires i <= |ns|
    ensures |Str(ns[..i])| <= |Str(ns)|
    decreases |ns|
  {
    if i < |ns| {
      assert ns[..|ns| - 1][..i] == ns[..i];
      StrGrows(ns[..|ns| - 1], i);
    } else {
      assert ns[..i] == ns;
    }
  }

  /** Printing reaches a field with exactly one byte of room left: that byte takes the separator,
      and the terminator behind it goes to index `size`. */
  predicate Overruns(ns: seq<Field>, size: nat) {
    size > 1 && exists i | 0 < i < |ns| :: |Str(ns[..i])| == size - 1
  }

  /** That happens only when the text does not fit anyway. */
  lemma OverrunIsTooLong(ns: seq<Field>, size: nat)
    requires Overruns(ns, size)
    ensures |Str(ns)| >= size
  {
    hide Str, Render;
    var i :| 0 < i < |ns| && |Str(ns[..i])| == size - 1;
    StrAt(ns, i);
    StrGrows(ns, i + 1);
  }

  /** An instance: a field that fills all but the last byte, and another field. */
  lemma OverrunInstance(f: Field, g: Field)
    requires f != []
    ensures Overruns([f, g], |Render(f)| + 1)
  {
    RenderSomething(f);
    assert [f, g][..1] == [f];
    StrOne([f]);
  }

  lemma NoLaterOverrun(ns: seq<Field>, i: nat, size: nat)
    requires i <= |ns| && |Str(ns[..i])| >= size
    requires forall k | 0 < k < i :: |Str(ns[..k])| != size - 1
    ensures !Overruns(ns, size)
  {
    hide Str;
    forall k | i <= k < |ns|
      ensures |Str(ns[..k])| >= size
    {
      assert ns[..k][..i] == ns[..i];
      StrGrows(ns[..k], i);
    }
  }

  /** Prints a separator, if anything is in front of it, and a field. */
  method AppendField(f: Field, buffer: array<byte>, start: nat, size: nat) returns (offset: nat)
    requires start < size <= buffer.Length && buffer[start] == 0
    requires size < buffer.Length || start == 0 || start + 1 < size
    modifies buffer
    ensures var before := old(buffer[..start]);
            var text := before + (if before == [] then [] else [DASH]) + Render(f);
            && (offset < size <==> |text| < size)
            && (offset < size ==> offset == |text| && buffer[..offset] == text && buffer[offset] == 0)
    ensures size < buffer.Length ==>
              buffer[size] == if start > 0 && start + 1 == size then 0 else old(buffer[size])
    ensures forall j | size < j < buffer.Length :: buffer[j] == old(buffer[j])
  {
    hide Render;
    RenderNone();
    ghost var before := buffer[..start];
    offset := start;
    if offset > 0 {
      buffer[offset] := DASH;
      offset := offset + 1;
      buffer[offset] := 0;
    }
    ghost var at := offset;
    ghost var led := buffer[..at];
    assert led == before + if before == [] then [] else [DASH];
    var n := RenderInto(f, buffer, offset, size - offset);
    assert buffer[..at] == led;
    offset := offset + n;
    if offset < size {
      assert buffer[..offset] == buffer[..at] + buffer[at..offset];
    }
  }

  /** The fields that are printed: all, or only the first. */
  function Printed(ns: seq<Field>, tuple: bool): seq<Field> {
    if tuple || ns == [] then ns else ns[..1]
  }

  /** Prints a namespace, or only its first field; false stands for the null result of a buffer
      that is too small. One byte behind the given size is written in exactly one case. */
  method NamespaceStr(ns: seq<Field>, buffer: array<byte>, size: nat, tuple: bool) returns (ok: bool)
    requires 0 < size <= buffer.Length
    requires size < buffer.Length || !Overruns(Printed(ns, tuple), size)
    modifies buffer
    ensures var text := Str(Printed(ns, tuple));
            && ok == (|text| < size)
            && (ok ==> buffer[..|text|] == text && buffer[|text|] == 0)
    ensures size < buffer.Length ==>
              buffer[size] == if Overruns(Printed(ns, tuple), size) then 0 else old(buffer[size])
    ensures forall j | size < j < buffer.Length :: buffer[j] == old(buffer[j])
  {
    ghost var all := Printed(ns, tuple);
    hide Str, Render;
    StrNone();
    assert all[..0] == [] && buffer[..0] == [];
    buffer[0] := 0;
    var offset: nat := 0;
    var i: nat := 0;
    while i < |ns|
      invariant i <= |all| && (i < |ns| ==> i < |all|)
      invariant offset == |Str(all[..i])| < size
      invariant buffer[..offset] == Str(all[..i]) && buffer[offset] == 0
      invariant forall k | 0 < k < i :: size == 1 || |Str(all[..k])| != size - 1
      invariant forall j | size <= j < buffer.Length :: buffer[j] == old(buffer[j])
    {
      assert all[i] == ns[i];
      StrAt(all, i);
      StrGrows(all, i + 1);
      if offset > 0 && offset + 1 == size {
        assert |Str(all[..i])| == size - 1;
        assert Overruns(all, size);
      }
      offset := AppendField(ns[i], buffer, offset, size);
      if offset >= size {
        if !(|Str(all[..i])| > 0 && |Str(all[..i])| == size - 1) && size > 1 {
          NoLaterOverrun(all, i + 1, size);
        }
        return false;
      }
      i := i + 1;
      if !tuple {
        break;
      }
    }
    assert all[..i] == all;
    ok := true;
  }

  lemma StrAt(ns: seq<Field>, i: nat)
    requires i < |ns|
    ensures var before := Str(ns[..i]);
            Str(ns[..i + 1]) == before + (if before == [] then [] else [DASH]) + Render(ns[i])
  {
    assert ns[..i + 1][..i] == ns[..i];
  }

  /** Prints a track name into a buffer of its own. */
  method TrackStr(name: Field, buffer: array<byte>, size: nat) returns (ok: bool)
    requires 0 < size <= buffer.Length
    modifies buffer
    ensures ok == (|Render(name)| < size)
    ensures ok ==> buffer[..|Render(name)|] == Render(name) && buffer[|Render(name)|] == 0
  {
    buffer[0] := 0;
    if name == [] {
      return true;
    }
    var offset := RenderInto(name, buffer, 0, size);
    ok := offset < size;
  }

  lemma ParseEmpty()
    ensures ParseField([]) == Some([]) && Stored([]) == 0
  {
  }

  lemma PlainStep(t: Text)
    requires t != [] && Plain(t[0])
    ensures ParseField(t) == Prepend([t[0]], ParseField(t[1..])) && Stored(t) == 1 + Stored(t[1..])
  {
  }

  lemma EscapeStep(t: Text)
    requires t != [] && !Plain(t[0])
    ensures if t[0] != DOT || |t| < 3 || HexByte(t[1], t[2]).None? then ParseField(t).None?
            else ParseField(t) == Prepend([HexByte(t[1], t[2]).value], ParseField(t[3..]))
                 && Stored(t) == 1 + Stored(t[3..])
  {
  }

  /** Decodes one field into a buffer; the bytes stored must fit. */
  method ParseInto(t: Text, buffer: array<byte>) returns (ok: bool, offset: nat)
    requires Stored(t) <= buffer.Length
    modifies buffer
    ensures ok == ParseField(t).Some?
    ensures ok ==> offset <= buffer.Length && ParseField(t) == Some(buffer[..offset])
  {
    hide ParseField, Stored, HexByte;
    var j: nat := 0;
    offset := 0;
    assert buffer[..0] == [] && t[0..] == t;
    PrependNone(ParseField(t));
    while j < |t|
      invariant j <= |t| && offset <= buffer.Length
      invariant Stored(t) == offset + Stored(t[j..])
      invariant ParseField(t) == Prepend(buffer[..offset], ParseField(t[j..]))
    {
      ghost var before, rest, from := buffer[..offset], t[j..], j;
      if Plain(t[j]) {
        PlainStep(rest);
        buffer[offset] := t[j];
        offset := offset + 1;
        j := j + 1;
      } else {
        EscapeStep(rest);
        if t[j] != DOT || |t| - j < 3 {
          return false, offset;
        }
        var code := HexByte(t[j + 1], t[j + 2]);
        if code.None? {
          return false, offset;
        }
        buffer[offset] := code.value;
        offset := offset + 1;
        j := j + 3;
      }
      assert rest[j - from..] == t[j..];
      assert buffer[..offset] == before + [buffer[offset - 1]];
      PrependTwice(before, [buffer[offset - 1]], ParseField(t[j..]));
    }
    assert t[j..] == [];
    ParseEmpty();
    assert buffer[..offset] + [] == buffer[..offset];
    ok := true;
  }

  /** Parses a namespace field by field; a malformed field gives up the whole. */
  method NamespaceFromStr(t: Text) returns (ns: seq<Field>)
    requires forall f :: f in Fields(t) ==> Stored(f) <= FIELD_BUFFER
    ensures ns == FromStr(t)
  {
    if t == [] {
      return [];
    }
    var fields := Fields(t);
    var buffer := new byte[FIELD_BUFFER](_ => 0);
    ns := [];
    for i := 0 to |fields|
      invariant ParseAll(fields[..i]) == Some(ns)
    {
      assert fields[i] in fields && fields[..i + 1][..i] == fields[..i];
      var ok, n := ParseInto(fields[i], buffer);
      if !ok {
        ParseAllFails(fields, i + 1);
        return [];
      }
      ns := ns + [buffer[..n]];
    }
    assert fields[..|fields|] == fields;
  }

  lemma {:induction false} ParseAllFails(ts: seq<Text>, i: nat)
    requires i <= |ts| && ParseAll(ts[..i]).None?
    ensures ParseAll(ts).None?
    decreases |ts|
  {
    if i < |ts| {
      assert ts[..|ts| - 1][..i] == ts[..i];
      ParseAllFails(ts[..|ts| - 1], i);
    } else {
      assert ts[..i] == ts;
    }
  }

  method TrackFromStr(t: Text) returns (name: Option<Field>)
    requires Stored(t) <= FIELD_BUFFER
    ensures name == ParseField(t)
  {
    var buffer := new byte[FIELD_BUFFER](_ => 0);
    var ok, n := ParseInto(t, buffer);
    name := if ok then Some(buffer[..n]) else None;
  }

  method SameBytes(a: Field, b: Field) returns (same: bool)
    ensures same == (a == b)
  {
    if |a| != |b| {
      return false;
    }
    for i := 0 to |a|
      invariant a[..i] == b[..i]
    {
      if a[i] != b[i] {
        return false;
      }
      assert a[..i + 1] == a[..i] + [a[i]] && b[..i + 1] == b[..i] + [b[i]];
    }
    assert a[..|a|] == a && b[..|a|] == b;
    same := true;
  }

  /** Two namespaces are equal when they have the same fields; no namespace equals the empty one, not even itself. */
  method NamespaceEquals(first: seq<Field>, second: seq<Field>) returns (same: bool)
    ensures same == (first == second != [])
  {
    if first == [] || second == [] {
      return false;
    }
    var i: nat := 0;
    while i < |first| || i < |second|
      invariant i <= |first| && i <= |second| && first[..i] == second[..i]
      decreases |first| - i
    {
      if i == |first| || i == |second| {
        return false;
      }
      same := SameBytes(first[i], second[i]);
      if !same {
        return false;
      }
      assert first[..i + 1] == first[..i] + [first[i]] && second[..i + 1] == second[..i] + [second[i]];
      i := i + 1;
    }
    assert first[..i] == first && second[..i] == second;
    same := true;
  }

  method NamespaceContains(parent: seq<Field>, child: seq<Field>) returns (contains: bool)
    ensures contains == (parent <= child)
  {
    if parent == [] {
      return true;
    }
    if child == [] {
      return false;
    }
    for i := 0 to |parent|
      invariant i <= |child| && parent[..i] == child[..i]
    {
      if i == |child| {
        return false;
      }
      contains := SameBytes(parent[i], child[i]);
      if !contains {
        return false;
      }
      assert parent[..i + 1] == parent[..i] + [parent[i]] && child[..i + 1] == child[..i] + [child[i]];
    }
    assert parent[..|parent|] == parent;
    contains := true;
  }
}
