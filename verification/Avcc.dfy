/** From the Annex B byte stream (H.264, section B.1) to length-prefixed NAL units and back. */
module Avcc {
  import opened AnnexB
  import opened Bytes
  import opened Wrappers

  // ----- The scan -----

  /** Length of the start code that `d` begins with; 0 for none. */
  function CodeLen(d: seq<byte>): (n: nat)
    ensures n in {0, 3, 4} && n <= |d|
    ensures n > 0 ==> d[..n] == StartCode(n == 4)
  {
    if LongCodeAt(d, 0) then 4 else if ShortCodeAt(d, 0) then 3 else 0
  }

  /** Bytes before the first start code. */
  function ToCode(d: seq<byte>): (n: nat)
    ensures n <= |d|
  {
    if d == [] || CodeLen(d) > 0 then 0 else 1 + ToCode(d[1..])
  }

  /** It stops at a start code, and at the first one. */
  lemma {:induction false} ToCodeStops(d: seq<byte>)
    ensures ToCode(d) < |d| ==> CodeLen(d[ToCode(d)..]) > 0
    ensures forall i | 0 <= i < ToCode(d) :: CodeLen(d[i..]) == 0
  {
    hide CodeLen;
    if d == [] || CodeLen(d) > 0 {
      assert d[0..] == d;
    } else {
      var rest, n := d[1..], ToCode(d[1..]);
      ToCodeStops(rest);
      assert d[1 + n..] == rest[n..];
      forall i | 0 <= i <= n
        ensures CodeLen(d[i..]) == 0
      {
        if i > 0 {
          assert d[i..] == rest[i - 1..];
        } else {
          assert d[0..] == d;
        }
      }
    }
  }

  /** What is left behind the start code and the NAL that `d` begins with. */
  function Behind(d: seq<byte>): (rest: seq<byte>)
    requires CodeLen(d) > 0
    ensures |rest| < |d| && (rest == [] || CodeLen(rest) > 0)
  {
    var e := d[CodeLen(d)..];
    ToCodeStops(e);
    e[ToCode(e)..]
  }

  /** The NAL behind that start code. */
  function First(d: seq<byte>): seq<byte>
    requires CodeLen(d) > 0
  {
    var e := d[CodeLen(d)..];
    e[..ToCode(e)]
  }

  lemma CodeFirstBehind(d: seq<byte>)
    requires CodeLen(d) > 0
    ensures d == StartCode(CodeLen(d) == 4) + First(d) + Behind(d)
  {
    hide CodeLen, ToCode;
    var c := CodeLen(d);
    assert d == d[..c] + d[c..];
  }

  /** The NALs behind the start codes of `d`; None when one of them is empty. */
  function Split(d: seq<byte>): Option<seq<seq<byte>>>
    requires d == [] || CodeLen(d) > 0
    decreases |d|
  {
    if d == [] then Some([])
    else if First(d) == [] then None
    else
      match Split(Behind(d))
      case None => None
      case Some(rest) => Some([First(d)] + rest)
  }

  /** Which of the start codes are long. */
  function Codes(d: seq<byte>): seq<bool>
    requires d == [] || CodeLen(d) > 0
    decreases |d|
  {
    if d == [] then [] else [CodeLen(d) == 4] + Codes(Behind(d))
  }

  /** What packing reads: bytes before the first start code are skipped. */
  function Scan(d: seq<byte>): Option<seq<seq<byte>>> {
    Split(Stream(d))
  }

  /** The input without what stands before its first start code. */
  function Stream(d: seq<byte>): (s: seq<byte>)
    ensures |s| <= |d| && (s == [] || CodeLen(s) > 0)
  {
    ToCodeStops(d);
    d[ToCode(d)..]
  }

  // ----- Length-prefixed units -----

  /** The length field keeps 32 bits. */
  function Prefixed(nal: seq<byte>): (s: seq<byte>)
    ensures |s| == 4 + |nal|
  {
    Be32(|nal| % U32) + nal
  }

  function Print(nals: seq<seq<byte>>): seq<byte> {
    if nals == [] then [] else Prefixed(nals[0]) + Print(nals[1..])
  }

  /** Length-prefixed units with nothing left over; None for anything else. */
  function Parse(b: seq<byte>): (r: Option<seq<seq<byte>>>)
    decreases |b|
  {
    if b == [] then Some([])
    else if |b| < 4 then None
    else
      var size := ReadBe32(b, 0);
      if size == 0 || 4 + size > |b| then None
      else
        match Parse(b[4 + size..])
        case None => None
        case Some(rest) => Some([b[4..4 + size]] + rest)
  }

  /** Units a length prefix can describe. */
  predicate Printable(nals: seq<seq<byte>>) {
    forall k | 0 <= k < |nals| :: 0 < |nals[k]| < U32
  }

  lemma ParseOne(nal: seq<byte>, rest: seq<byte>)
    requires 0 < |nal| < U32
    ensures Parse(Prefixed(nal) + rest)
         == match Parse(rest) case None => None case Some(nals) => Some([nal] + nals)
  {
    var b := Prefixed(nal) + rest;
    assert b[0..4] == Be32(|nal|);
    Be32Field(b, 0, |nal|);
    assert b[4..4 + |nal|] == nal && b[4 + |nal|..] == rest;
  }

  lemma {:induction false} ParsePrint(nals: seq<seq<byte>>)
    requires Printable(nals)
    ensures Parse(Print(nals)) == Some(nals)
  {
    hide Parse, Prefixed;
    if nals == [] {
      ParseNone();
    } else {
      ParsePrint(nals[1..]);
      ParseOne(nals[0], Print(nals[1..]));
      assert [nals[0]] + nals[1..] == nals;
    }
  }

  lemma ParseNone()
    ensures Parse([]) == Some([])
  {
  }

  /** One unit off what the parser accepts. */
  lemma ParseStep(b: seq<byte>) returns (nal: seq<byte>, rest: seq<byte>)
    requires Parse(b).Some? && b != []
    ensures 0 < |nal| < U32 && 4 + |nal| <= |b| && ReadBe32(b, 0) == |nal|
    ensures nal == b[4..4 + |nal|] && rest == b[4 + |nal|..] && b == Prefixed(nal) + rest
    ensures Parse(rest).Some? && Parse(b).value == [nal] + Parse(rest).value
  {
    hide Parse, Be32, ReadBe32, Prefixed;
    ParseUnfold(b);
    var size := ReadBe32(b, 0);
    nal, rest := b[4..4 + size], b[4 + size..];
    Be32Field(b, 0, size);
    ThreeParts(b, 4, 4 + size);
    PrefixedIs(nal);
  }

  lemma ThreeParts(b: seq<byte>, i: nat, j: nat)
    requires i <= j <= |b|
    ensures b == b[0..i] + b[i..j] + b[j..]
  {
  }

  lemma PrefixedIs(nal: seq<byte>)
    requires |nal| < U32
    ensures Prefixed(nal) == Be32(|nal|) + nal
  {
    hide Be32;
  }

  lemma ParseUnfold(b: seq<byte>)
    ensures Parse(b)
         == if b == [] then Some([])
            else if |b| < 4 || ReadBe32(b, 0) == 0 || 4 + ReadBe32(b, 0) > |b| then None
            else
              var size := ReadBe32(b, 0);
              match Parse(b[4 + size..])
              case None => None
              case Some(rest) => Some([b[4..4 + size]] + rest)
  {
  }

  lemma {:induction false} PrintParse(b: seq<byte>)
    requires Parse(b).Some?
    ensures Printable(Parse(b).value) && Print(Parse(b).value) == b
    decreases |b|
  {
    hide Parse, Prefixed;
    if b == [] {
      ParseNone();
    } else {
      var nal, rest := ParseStep(b);
      PrintParse(rest);
      assert ([nal] + Parse(rest).value)[1..] == Parse(rest).value;
    }
  }

  /** The parser accepts exactly the printed lists, each as the list it was printed from. */
  lemma ParseExactly(b: seq<byte>, nals: seq<seq<byte>>)
    ensures Parse(b) == Some(nals) <==> Printable(nals) && b == Print(nals)
  {
    hide Parse, Print, Printable;
    if Parse(b).Some? {
      PrintParse(b);
    }
    if Printable(nals) {
      ParsePrint(nals);
    }
  }

  // ----- What the scan finds, and what it finds after a rewrite -----

  /** A successful scan loses nothing: the input is the found NALs behind their start codes. */
  lemma {:induction false} SplitInverts(d: seq<byte>)
    requires (d == [] || CodeLen(d) > 0) && Split(d).Some?
    ensures |Codes(d)| == |Split(d).value| && Render(Split(d).value, Codes(d)) == d
    decreases |d|
  {
    hide CodeLen, First, Behind, StartCode;
    if d != [] {
      SplitInverts(Behind(d));
      CodeFirstBehind(d);
      var nals, codes := Split(d).value, Codes(d);
      assert nals[1..] == Split(Behind(d)).value && codes[1..] == Codes(Behind(d));
    }
  }

  /** No start code begins in `nal`, nor reaches from it into the `follow` behind it. */
  predicate Sealed(nal: seq<byte>, follow: seq<byte>) {
    forall i | 0 <= i < |nal| :: CodeLen((nal + follow)[i..]) == 0
  }

  /** Followed by the long start code or by nothing, every NAL of a list is delimited by what follows. */
  predicate AllSealed(nals: seq<seq<byte>>) {
    forall k | 0 <= k < |nals| ::
      nals[k] != [] && Sealed(nals[k], if k + 1 < |nals| then StartCode(true) else [])
  }

  /** A NAL found in front of a start code is delimited by the long one as well: in front
      of a short one its last byte is not zero. */
  lemma SealedByLong(nal: seq<byte>, rest: seq<byte>)
    requires nal != [] && CodeLen(rest) > 0 && Sealed(nal, rest)
    ensures Sealed(nal, StartCode(true))
  {
    var m := |nal|;
    var d, e := nal + rest, nal + StartCode(true);
    assert d[m..] == rest;
    assert rest[0] == 0 && rest[1] == 0;
    if CodeLen(rest) == 3 && nal[m - 1] == 0 {
      assert LongCodeAt(d[m - 1..], 0);
      assert false;
    }
    forall i | 0 <= i < m
      ensures CodeLen(e[i..]) == 0
    {
      assert CodeLen(d[i..]) == 0;
      assert forall j | 0 <= j < |d| - i :: d[i..][j] == d[i + j];
      assert forall j | 0 <= j < |e| - i :: e[i..][j] == e[i + j];
    }
  }

  lemma {:induction false} SplitSealed(d: seq<byte>)
    requires (d == [] || CodeLen(d) > 0) && Split(d).Some?
    ensures AllSealed(Split(d).value) && (Split(d).value == [] <==> d == [])
    decreases |d|
  {
    hide CodeLen, First, Behind, Sealed;
    if d != [] {
      var nal, rest := First(d), Behind(d);
      SplitSealed(rest);
      SealedInPlace(d);
      if rest != [] {
        SealedByLong(nal, rest);
      }
      assert Split(d).value == [nal] + Split(rest).value;
    }
  }

  lemma SealedInPlace(d: seq<byte>)
    requires CodeLen(d) > 0
    ensures Sealed(First(d), Behind(d))
  {
    hide ToCode, CodeLen;
    var e := d[CodeLen(d)..];
    ToCodeStops(e);
    assert First(d) + Behind(d) == e;
  }

  /** A delimited NAL is found as it is, whatever follows the long start code behind it. */
  lemma ToCodeSealed(nal: seq<byte>, rest: seq<byte>)
    requires Sealed(nal, if rest == [] then [] else StartCode(true))
    requires rest == [] || (|rest| >= 4 && rest[..4] == StartCode(true))
    ensures ToCode(nal + rest) == |nal|
  {
    hide ToCode, CodeLen, LongCodeAt;
    var d, m := nal + rest, |nal|;
    assert d[m..] == rest;
    if rest == [] {
      assert d == nal + [];
    } else {
      LongAhead(rest);
      forall i | 0 <= i < m
        ensures CodeLen(d[i..]) == 0
      {
        Window(d, nal + StartCode(true), i);
      }
    }
    ToCodeAt(d, m);
  }

  lemma LongAhead(d: seq<byte>)
    requires |d| >= 4 && d[..4] == StartCode(true)
    ensures CodeLen(d) == 4
  {
    assert d[0] == d[..4][0] && d[1] == d[..4][1] && d[2] == d[..4][2] && d[3] == d[..4][3];
  }

  /** The first start code is where there is one and none before it. */
  lemma ToCodeAt(d: seq<byte>, m: nat)
    requires m <= |d| && (m < |d| ==> CodeLen(d[m..]) > 0)
    requires forall i | 0 <= i < m :: CodeLen(d[i..]) == 0
    ensures ToCode(d) == m
  {
    hide ToCode, CodeLen;
    ToCodeStops(d);
    var n := ToCode(d);
    assert n < |d| ==> CodeLen(d[n..]) > 0;
    assert m < |d| ==> CodeLen(d[m..]) > 0;
  }

  /** A start code is seen in the first four bytes. */
  lemma Window(d: seq<byte>, e: seq<byte>, i: nat)
    requires i <= |d| && i + 4 <= |e| <= |d| && d[..|e|] == e && CodeLen(e[i..]) == 0
    ensures CodeLen(d[i..]) == 0
  {
    assert forall j | 0 <= j < 4 :: d[i..][j] == d[i + j] == d[..|e|][i + j] == e[i..][j];
  }

  /** The scan reads a rewritten list back. */
  lemma {:induction false} SplitUnit(nals: seq<seq<byte>>)
    requires AllSealed(nals)
    ensures Unit(nals) == [] || CodeLen(Unit(nals)) > 0
    ensures Split(Unit(nals)) == Some(nals)
  {
    hide ToCode, Sealed, Unit, CodeLen, First, Behind;
    if nals == [] {
      UnitNone();
    } else {
      var nal, rest := nals[0], Unit(nals[1..]);
      assert forall k | 0 <= k < |nals| - 1 :: nals[1..][k] == nals[k + 1];
      SplitUnit(nals[1..]);
      UnitCons(nals);
      UnitHead(nals[1..]);
      FirstOfUnit(nal, rest);
      assert StartCode(true) + (nal + rest) == StartCode(true) + nal + rest;
      assert nals == [nal] + nals[1..];
    }
  }

  lemma FirstOfUnit(nal: seq<byte>, rest: seq<byte>)
    requires Sealed(nal, if rest == [] then [] else StartCode(true))
    requires rest == [] || (|rest| >= 4 && rest[..4] == StartCode(true))
    ensures var d := StartCode(true) + (nal + rest);
            CodeLen(d) == 4 && First(d) == nal && Behind(d) == rest
  {
    hide ToCode, Sealed, CodeLen;
    var d := StartCode(true) + (nal + rest);
    LongHead(nal + rest);
    ToCodeSealed(nal, rest);
    assert d[4..] == nal + rest;
  }

  lemma LongHead(rest: seq<byte>)
    ensures CodeLen(StartCode(true) + rest) == 4
  {
  }

  lemma UnitHead(nals: seq<seq<byte>>)
    ensures if nals == [] then Unit(nals) == [] else |Unit(nals)| >= 4 && Unit(nals)[..4] == StartCode(true)
  {
    if nals != [] {
      UnitCons(nals);
    }
  }

  // ----- Every start code is found -----

  /** A start code is seen where there is one, short or long. */
  lemma CodeSeen(d: seq<byte>, i: nat)
    requires i <= |d|
    ensures CodeLen(d[i..]) > 0 <==> ShortCodeAt(d, i) || LongCodeAt(d, i)
    ensures LongCodeAt(d, i) ==> ShortCodeAt(d, i + 1)
  {
    var e := d[i..];
    assert forall k | 0 <= k < |e| :: e[k] == d[i + k];
  }

  /** No start code is left inside a unit the scan finds. */
  lemma NoCodeInUnits(src: seq<byte>, k: nat, i: nat)
    requires Scan(src).Some? && k < |Scan(src).value|
    ensures !ShortCodeAt(Scan(src).value[k], i)
  {
    hide Split, ToCode, CodeLen;
    SplitSealed(Stream(src));
    var nals := Scan(src).value;
    var nal, follow := nals[k], if k + 1 < |nals| then StartCode(true) else [];
    assert Sealed(nal, follow);
    if i < |nal| {
      assert CodeLen((nal + follow)[i..]) == 0;
      CodeSeen(nal + follow, i);
    }
  }

  /** The scan finds no unit, and none is missing, just when there is no start code in the input. */
  lemma NothingFound(src: seq<byte>)
    ensures Scan(src) == Some([]) <==> forall i | 0 <= i < |src| :: !ShortCodeAt(src, i)
  {
    hide ToCode, CodeLen;
    ToCodeStops(src);
    var n := ToCode(src);
    assert Scan(src) == Some([]) <==> n == |src|;
    if n < |src| {
      CodeSeen(src, n);
      assert ShortCodeAt(src, n) || ShortCodeAt(src, n + 1);
    } else {
      forall i | 0 <= i < |src|
        ensures !ShortCodeAt(src, i)
      {
        assert CodeLen(src[i..]) == 0;
        CodeSeen(src, i);
      }
    }
  }

  /** For well-formed units behind any mix of start codes, the scan finds exactly those units. */
  lemma ScanOfRendered(nals: seq<seq<byte>>, long: seq<bool>)
    requires |nals| == |long| && forall k | 0 <= k < |nals| :: WellFormed(nals[k])
    ensures Scan(Render(nals, long)) == Some(nals)
  {
    hide Split, CodeLen, Render, WellFormed;
    SplitRendered(nals, long);
    ToCodeAtCode(Render(nals, long));
  }

  lemma {:induction false} SplitRendered(nals: seq<seq<byte>>, long: seq<bool>)
    requires |nals| == |long| && forall k | 0 <= k < |nals| :: WellFormed(nals[k])
    ensures var d := Render(nals, long);
            (if nals == [] then d == [] else CodeLen(d) > 0) && Split(d) == Some(nals)
  {
    hide ToCode, CodeLen, First, Behind, WellFormed;
    if nals != [] {
      var rest := Render(nals[1..], long[1..]);
      SplitRendered(nals[1..], long[1..]);
      FirstRendered(nals[0], long[0], rest);
      FormedHasBytes(nals[0]);
      assert nals == [nals[0]] + nals[1..];
    }
  }

  lemma FormedHasBytes(nal: seq<byte>)
    requires WellFormed(nal)
    ensures nal != []
  {
  }

  lemma FirstRendered(nal: seq<byte>, long: bool, rest: seq<byte>)
    requires WellFormed(nal) && (rest == [] || CodeLen(rest) > 0)
    ensures var d := StartCode(long) + nal + rest;
            CodeLen(d) == |StartCode(long)| && First(d) == nal && Behind(d) == rest
  {
    hide ToCode, CodeLen, WellFormed;
    var d, e := StartCode(long) + nal + rest, nal + rest;
    CodeInFront(long, nal, rest);
    assert d[|StartCode(long)|..] == e;
    assert e[|nal|..] == rest;
    forall i | 0 <= i < |nal|
      ensures CodeLen(e[i..]) == 0
    {
      assert e[0..0 + |nal|] == nal;
      NoCodeInside(e, 0, nal, i);
      CodeSeen(e, i);
    }
    ToCodeAt(e, |nal|);
  }

  lemma CodeInFront(long: bool, nal: seq<byte>, rest: seq<byte>)
    requires nal != [] || WellFormed(nal)
    ensures CodeLen(StartCode(long) + nal + rest) == |StartCode(long)|
  {
  }

  /** So packing well-formed units succeeds if and only if there is one and the output, a length of four
      bytes before each, fits; and it delivers those units. */
  lemma PackRendered(nals: seq<seq<byte>>, long: seq<bool>, capacity: nat)
    requires |nals| == |long| && forall k | 0 <= k < |nals| :: WellFormed(nals[k])
    ensures Packed(Render(nals, long), capacity)
         == if nals != [] && |Unit(nals)| <= capacity then Some(Print(nals)) else None
  {
    hide Print, Unit, Scan, WellFormed;
    ScanOfRendered(nals, long);
    forall k | 0 <= k < |nals|
      ensures nals[k] != []
    {
      FormedHasBytes(nals[k]);
    }
    PrintLength(nals);
    if nals != [] {
      RenderedBytes(nals, long);
    }
  }

  lemma RenderedBytes(nals: seq<seq<byte>>, long: seq<bool>)
    requires |nals| == |long| && nals != [] && nals[0] != []
    ensures |Render(nals, long)| >= 4
  {
    hide Render;
    RenderedHead(nals, long);
  }

  lemma RenderedHead(nals: seq<seq<byte>>, long: seq<bool>)
    requires |nals| == |long| && nals != []
    ensures Render(nals, long) == StartCode(long[0]) + nals[0] + Render(nals[1..], long[1..])
  {
  }

  // ----- Main results -----

  /** What packing delivers when the destination has room for `capacity` bytes: None for the program's 0. */
  function Packed(src: seq<byte>, capacity: nat): (r: Option<seq<byte>>)
    ensures r.Some? ==> 0 < |r.value| <= capacity
  {
    if |src| < 4 || capacity < 5 then None
    else
      match Scan(src)
      case None => None
      case Some(nals) => if nals == [] || |Print(nals)| > capacity then None else Some(Print(nals))
  }

  /** What the in-place rewriter makes of a buffer: every length field up to the first bad one becomes a start code. */
  function Rewritten(b: seq<byte>): (r: seq<byte>)
    ensures |r| == |b|
    decreases |b|
  {
    if |b| < 4 || ReadBe32(b, 0) == 0 || 4 + ReadBe32(b, 0) > |b| then b
    else StartCode(true) + b[4..4 + ReadBe32(b, 0)] + Rewritten(b[4 + ReadBe32(b, 0)..])
  }

  lemma RewriteOne(nal: seq<byte>, rest: seq<byte>)
    requires 0 < |nal| < U32
    ensures Rewritten(Prefixed(nal) + rest) == StartCode(true) + nal + Rewritten(rest)
  {
    var b := Prefixed(nal) + rest;
    assert b[0..4] == Be32(|nal|);
    Be32Field(b, 0, |nal|);
    assert b[4..4 + |nal|] == nal && b[4 + |nal|..] == rest;
  }

  lemma {:induction false} RewritePrint(nals: seq<seq<byte>>)
    requires Printable(nals)
    ensures Rewritten(Print(nals)) == Unit(nals)
  {
    hide Rewritten, Prefixed, Unit;
    if nals == [] {
      UnitNone();
      assert Print(nals) == [];
      assert Rewritten([]) == [];
    } else {
      RewritePrint(nals[1..]);
      RewriteOne(nals[0], Print(nals[1..]));
      UnitCons(nals);
    }
  }

  lemma {:induction false} SplitPrintable(d: seq<byte>)
    requires (d == [] || CodeLen(d) > 0) && Split(d).Some? && |d| < U32
    ensures Printable(Split(d).value)
    decreases |d|
  {
    hide CodeLen, Behind, ToCode;
    if d != [] {
      SplitPrintable(Behind(d));
    }
  }

  lemma {:induction false} PrintLength(nals: seq<seq<byte>>)
    requires AllNonempty(nals)
    ensures |Print(nals)| == |Unit(nals)| && (nals != [] ==> |Print(nals)| >= 5)
  {
    hide Unit;
    if nals == [] {
      UnitNone();
    } else {
      PrintLength(nals[1..]);
      UnitCons(nals);
    }
  }

  lemma {:induction false} RenderLength(nals: seq<seq<byte>>, long: seq<bool>)
    requires |nals| == |long|
    ensures |Print(nals)| == |Render(nals, long)| + Shorts(long)
  {
    if nals != [] {
      RenderLength(nals[1..], long[1..]);
    }
  }

  function Shorts(long: seq<bool>): nat {
    if long == [] then 0 else (if long[0] then 0 else 1) + Shorts(long[1..])
  }

  /** A packed buffer is as long as its source less what stands before the first start code,
      plus one byte for every short start code; and the source is exactly its NALs behind those codes. */
  lemma PackedLength(src: seq<byte>, capacity: nat)
    requires Packed(src, capacity).Some?
    ensures var lead := ToCode(src);
            var nals := Scan(src).value;
            var codes := Codes(Stream(src));
            && |codes| == |nals| && src == src[..lead] + Render(nals, codes)
            && Packed(src, capacity) == Some(Print(nals))
            && |Print(nals)| == |src| - lead + Shorts(codes)
  {
    hide ToCode, Split, Codes;
    SplitInverts(Stream(src));
    RenderLength(Scan(src).value, Codes(Stream(src)));
  }

  /** Everything that can be packed comes back unchanged from rewriting to the byte stream and packing
      again, as long as each unit's length fits its 32-bit field. */
  lemma PackRewritePack(src: seq<byte>, capacity: nat)
    requires Scan(src).Some? ==> Printable(Scan(src).value)
    ensures var p := Packed(src, capacity);
            p.Some? ==> Packed(Rewritten(p.value), capacity) == p
  {
    hide Print, Rewritten, Printable, Stream, Split, Unit, AllSealed;
    if Packed(src, capacity).Some? {
      var nals := Scan(src).value;
      SplitSealed(Stream(src));
      SealedNonempty(nals);
      RewritePrint(nals);
      PrintLength(nals);
      SplitUnit(nals);
      ScanAtCode(Unit(nals));
    }
  }

  lemma ToCodeAtCode(d: seq<byte>)
    ensures d == [] || CodeLen(d) > 0 ==> ToCode(d) == 0
  {
  }

  lemma SealedNonempty(nals: seq<seq<byte>>)
    requires AllSealed(nals)
    ensures AllNonempty(nals)
  {
  }

  /** The validator's verdict: one or more nonempty units, nothing left over. */
  predicate Complete(b: seq<byte>) {
    Parse(b).Some? && Parse(b).value != []
  }

  /** A packed buffer is accepted as the scanned NALs exactly when each one's length fits its field. */
  lemma PackedIsComplete(src: seq<byte>, capacity: nat)
    requires Packed(src, capacity).Some?
    ensures var p := Packed(src, capacity).value;
            Complete(p) && Parse(p) == Scan(src) <==> Printable(Scan(src).value)
  {
    hide Parse, Print, Printable, Stream, Split;
    ParseExactly(Packed(src, capacity).value, Scan(src).value);
  }

  /** Every input shorter than 2^32 bytes is of that kind. */
  lemma ShortInputsFit(src: seq<byte>)
    requires |src| < U32 && Scan(src).Some?
    ensures Printable(Scan(src).value)
  {
    hide Printable, Split;
    SplitPrintable(Stream(src));
  }

  /** The keyframe test: a unit of type 5 before the first bad length field. */
  predicate Keyframe(b: seq<byte>)
    decreases |b|
  {
    if |b| < 4 || ReadBe32(b, 0) == 0 || 4 + ReadBe32(b, 0) > |b| then false
    else b[4] % 32 == 5 || Keyframe(b[4 + ReadBe32(b, 0)..])
  }

  predicate HasType(nals: seq<seq<byte>>, nalType: nat)
    requires AllNonempty(nals)
  {
    exists k | 0 <= k < |nals| :: nals[k][0] % 32 == nalType
  }

  lemma {:induction false} KeyframeParse(b: seq<byte>)
    requires Parse(b).Some?
    ensures AllNonempty(Parse(b).value) && (Keyframe(b) <==> HasType(Parse(b).value, 5))
    decreases |b|
  {
    hide Parse, HasType, ReadBe32;
    if b == [] {
      ParseNone();
      NoType();
    } else {
      var nal, rest := ParseStep(b);
      KeyframeParse(rest);
      HasTypeCons(nal, Parse(rest).value, 5);
    }
  }

  lemma HasTypeCons(nal: seq<byte>, rest: seq<seq<byte>>, nalType: nat)
    requires nal != [] && AllNonempty(rest)
    ensures AllNonempty([nal] + rest)
    ensures HasType([nal] + rest, nalType) <==> nal[0] % 32 == nalType || HasType(rest, nalType)
  {
    var nals := [nal] + rest;
    assert nals[0] == nal;
    assert forall k | 0 <= k < |rest| :: nals[k + 1] == rest[k];
  }

  lemma NoType()
    ensures !HasType([], 5)
  {
  }

  /** On packed output the keyframe test finds a type 5 unit exactly when the byte stream had one. */
  lemma PackedKeyframe(src: seq<byte>, capacity: nat)
    requires Packed(src, capacity).Some? && Printable(Scan(src).value)
    ensures AllNonempty(Scan(src).value)
    ensures Keyframe(Packed(src, capacity).value) <==> HasType(Scan(src).value, 5)
  {
    hide Parse, Print, Keyframe, HasType, Scan, Packed, Printable;
    PackedIsComplete(src, capacity);
    KeyframeParse(Packed(src, capacity).value);
  }

  // ----- The program's loops -----

  /** Position `pos` of the scan, with the NALs in `found` behind it. */
  function Ahead(found: seq<seq<byte>>, rest: Option<seq<seq<byte>>>): Option<seq<seq<byte>>> {
    match rest case None => None case Some(nals) => Some(found + nals)
  }

  method StartCodeLen(data: seq<byte>, pos: nat) returns (n: nat)
    requires pos <= |data|
    ensures n == CodeLen(data[pos..])
  {
    assert forall j | 0 <= j < |data| - pos :: data[pos..][j] == data[pos + j];
    if pos + 4 <= |data| && data[pos] == 0 && data[pos + 1] == 0 && data[pos + 2] == 0 && data[pos + 3] == 1 {
      return 4;
    }
    if pos + 3 <= |data| && data[pos] == 0 && data[pos + 1] == 0 && data[pos + 2] == 1 {
      return 3;
    }
    return 0;
  }

  method NextCode(src: seq<byte>, from: nat) returns (next: nat)
    requires from <= |src|
    ensures next == from + ToCode(src[from..])
  {
    hide CodeLen;
    next := from;
    while next < |src|
      invariant from <= next <= |src|
      invariant ToCode(src[from..]) == next - from + ToCode(src[next..])
    {
      var n := StartCodeLen(src, next);
      if n > 0 {
        break;
      }
      assert src[next..][1..] == src[next + 1..];
      next := next + 1;
    }
  }

  lemma ScanNone()
    ensures Scan([]) == Some([]) && Print([]) == []
  {
  }

  lemma SkipByte(src: seq<byte>, pos: nat)
    requires pos < |src| && CodeLen(src[pos..]) == 0
    ensures Scan(src[pos..]) == Scan(src[pos + 1..])
  {
    hide CodeLen, Split;
    var d := src[pos..];
    assert d[1..] == src[pos + 1..];
    assert Stream(d) == Stream(d[1..]);
  }

  /** One NAL off the scan, which fails if it is empty and otherwise goes on behind it. */
  lemma TakeFirst(d: seq<byte>, found: seq<seq<byte>>)
    requires CodeLen(d) > 0
    ensures Ahead(found, Scan(d)) == if First(d) == [] then None else Ahead(found + [First(d)], Scan(Behind(d)))
  {
    hide CodeLen, First, Behind, Scan;
    var nal, rest := First(d), Behind(d);
    ScanAtCode(d);
    ScanAtCode(rest);
    if Split(rest).Some? {
      assert found + ([nal] + Split(rest).value) == found + [nal] + Split(rest).value;
    }
  }

  lemma ScanAtCode(d: seq<byte>)
    requires d == [] || CodeLen(d) > 0
    ensures Scan(d) == Split(d)
  {
    hide ToCode, CodeLen, Split;
    ToCodeAtCode(d);
    assert d[0..] == d;
  }

  /** The same in place: a start code at `pos` and the NAL behind it. */
  lemma TakeNal(src: seq<byte>, pos: nat, found: seq<seq<byte>>)
    requires pos < |src| && CodeLen(src[pos..]) > 0
    ensures var start := pos + CodeLen(src[pos..]);
            var next := start + ToCode(src[start..]);
            && next <= |src|
            && Ahead(found, Scan(src[pos..]))
               == if next == start then None else Ahead(found + [src[start..next]], Scan(src[next..]))
  {
    hide CodeLen, ToCode, Scan, Ahead;
    var d := src[pos..];
    var c := CodeLen(d);
    assert d[c..] == src[pos + c..];
    var n := ToCode(d[c..]);
    assert First(d) == src[pos + c..pos + c + n] && Behind(d) == src[pos + c + n..];
    TakeFirst(d, found);
  }

  lemma {:induction false} PrintAppend(a: seq<seq<byte>>, b: seq<seq<byte>>)
    ensures Print(a + b) == Print(a) + Print(b)
  {
    hide Prefixed;
    if a == [] {
      assert a + b == b;
    } else {
      assert (a + b)[1..] == a[1..] + b;
      PrintAppend(a[1..], b);
    }
  }

  lemma PrintOne(nal: seq<byte>)
    ensures Print([nal]) == Prefixed(nal)
  {
  }

  /** Once the units found so far do not fit, nothing that follows can make the whole fit. */
  lemma TooLong(src: seq<byte>, capacity: nat, found: seq<seq<byte>>, nal: seq<byte>, rest: Option<seq<seq<byte>>>)
    requires Ahead(found + [nal], rest) == Scan(src)
    requires |Print(found)| + 4 + |nal| > capacity
    ensures Packed(src, capacity) == None
  {
    hide Print, Scan, Prefixed;
    PrintAppend(found, [nal]);
    PrintOne(nal);
    if rest.Some? {
      PrintAppend(found + [nal], rest.value);
    }
  }

  /** The scan at its start, and at its end. */
  lemma AheadEnds(found: seq<seq<byte>>, rest: Option<seq<seq<byte>>>)
    ensures Ahead([], rest) == rest && Ahead(found, None) == None && Ahead(found, Some([])) == Some(found)
  {
    var none: seq<seq<byte>> := [];
    assert found + none == found && (rest.Some? ==> none + rest.value == rest.value);
  }

  /** Writes one length-prefixed unit at `at`, behind those printed there. */
  method PutUnit(dst: array<byte>, at: nat, nal: seq<byte>, ghost found: seq<seq<byte>>)
    requires at + 4 + |nal| <= dst.Length && dst[..at] == Print(found)
    modifies dst
    ensures dst[..at + 4 + |nal|] == Print(found + [nal])
    ensures dst[at + 4 + |nal|..] == old(dst[at + 4 + |nal|..])
  {
    hide Print;
    PrintAppend(found, [nal]);
    PrintOne(nal);
    var prefix := Be32(|nal| % U32);
    forall i | 0 <= i < 4 { dst[at + i] := prefix[i]; }
    forall i | 0 <= i < |nal| { dst[at + 4 + i] := nal[i]; }
    assert dst[..at + 4 + |nal|] == old(dst[..at]) + (prefix + nal);
  }

  method Pack(src: seq<byte>, dst: array<byte>) returns (n: nat)
    modifies dst
    ensures match Packed(src, dst.Length)
            case None => n == 0
            case Some(p) => n == |p| && dst[..n] == p && dst[n..] == old(dst[n..])
  {
    hide CodeLen, ToCode, Scan, Print, Prefixed, Ahead;
    if |src| < 4 || dst.Length < 5 {
      return 0;
    }
    var srcPos: nat, dstPos: nat := 0, 0;
    ghost var found: seq<seq<byte>> := [];
    assert src[0..] == src;
    AheadEnds(found, Scan(src));
    ScanNone();
    while srcPos < |src|
      invariant srcPos <= |src| && dstPos <= dst.Length
      invariant Ahead(found, Scan(src[srcPos..])) == Scan(src)
      invariant dst[..dstPos] == Print(found)
      invariant dstPos == 0 <==> found == []
      invariant dst[dstPos..] == old(dst[dstPos..])
    {
      var code := StartCodeLen(src, srcPos);
      if code == 0 {
        SkipByte(src, srcPos);
        srcPos := srcPos + 1;
        continue;
      }
      var start := srcPos + code;
      var next := NextCode(src, start);
      var size := next - start;
      TakeNal(src, srcPos, found);
      if size == 0 {
        return 0;
      }
      var nal := src[start..next];
      if dstPos + 4 + size > dst.Length {
        TooLong(src, dst.Length, found, nal, Scan(src[next..]));
        return 0;
      }
      ghost var untouched := dst[dstPos..];
      PutUnit(dst, dstPos, nal, found);
      assert dst[dstPos + 4 + size..] == untouched[4 + size..] == old(dst[dstPos + 4 + size..]);
      found := found + [nal];
      dstPos := dstPos + 4 + size;
      assert dst[..dstPos] == Print(found);
      srcPos := next;
    }
    assert src[|src|..] == [];
    AheadEnds(found, Scan(src));
    return dstPos;
  }

  /** The same field read at an offset. */
  lemma FieldAt(b: seq<byte>, at: nat)
    requires at + 4 <= |b|
    ensures ReadBe32(b[at..], 0) == ReadBe32(b, at)
  {
  }

  method IsComplete(buffer: seq<byte>) returns (ok: bool)
    ensures ok <==> Complete(buffer)
  {
    hide Parse, ReadBe32;
    ParseUnfold(buffer);
    if |buffer| < 5 {
      Short(buffer);
      return false;
    }
    var offset: nat, found := 0, false;
    assert buffer[0..] == buffer;
    while |buffer| >= offset + 4
      invariant offset <= |buffer| && (found <==> offset > 0)
      invariant Parse(buffer).Some? <==> Parse(buffer[offset..]).Some?
      invariant found && Parse(buffer).Some? ==> Parse(buffer).value != []
    {
      ParseUnfold(buffer[offset..]);
      FieldAt(buffer, offset);
      var size := ReadBe32(buffer, offset);
      if size == 0 || offset + 4 + size > |buffer| {
        return false;
      }
      assert buffer[offset..][4 + size..] == buffer[offset + 4 + size..];
      found := true;
      offset := offset + 4 + size;
    }
    ParseUnfold(buffer[offset..]);
    return found && offset == |buffer|;
  }

  lemma Short(b: seq<byte>)
    requires |b| < 5
    ensures !Complete(b)
  {
    hide ReadBe32;
  }

  lemma RewriteUnfold(b: seq<byte>)
    ensures Rewritten(b)
         == if |b| < 4 || ReadBe32(b, 0) == 0 || 4 + ReadBe32(b, 0) > |b| then b
            else StartCode(true) + b[4..4 + ReadBe32(b, 0)] + Rewritten(b[4 + ReadBe32(b, 0)..])
  {
  }

  /** One round of the in-place rewriter, on the bytes from `offset` on. */
  lemma RewriteAt(b: seq<byte>, offset: nat)
    requires offset + 4 <= |b|
    ensures var size := ReadBe32(b, offset);
            Rewritten(b[offset..])
            == if size == 0 || offset + 4 + size > |b| then b[offset..]
               else StartCode(true) + b[offset + 4..offset + 4 + size] + Rewritten(b[offset + 4 + size..])
  {
    hide Rewritten, ReadBe32;
    RewriteUnfold(b[offset..]);
    FieldAt(b, offset);
    var size := ReadBe32(b, offset);
    if offset + 4 + size <= |b| {
      assert b[offset..][4 + size..] == b[offset + 4 + size..];
      assert b[offset..][4..4 + size] == b[offset + 4..offset + 4 + size];
    }
  }

  method PutStartCode(buffer: array<byte>, offset: nat)
    requires offset + 4 <= buffer.Length
    modifies buffer
    ensures buffer[..] == old(buffer[..])[..offset] + StartCode(true) + old(buffer[..])[offset + 4..]
  {
    buffer[offset], buffer[offset + 1], buffer[offset + 2], buffer[offset + 3] := 0, 0, 0, 1;
  }

  /** The buffer `now` of a rewrite of `b` that has come to `offset`. */
  ghost predicate RewrittenUpTo(b: seq<byte>, now: seq<byte>, offset: nat) {
    |now| == |b| && offset <= |b| && now[offset..] == b[offset..]
    && Rewritten(b) == now[..offset] + Rewritten(b[offset..])
  }

  lemma RewriteStart(b: seq<byte>)
    ensures RewrittenUpTo(b, b, 0)
  {
    hide Rewritten;
    assert b[0..] == b && b[..0] + Rewritten(b) == Rewritten(b);
  }

  /** One round of the rewrite: it stops at a bad length field, and otherwise moves on to the next one. */
  lemma RewriteRound(b: seq<byte>, now: seq<byte>, offset: nat)
    requires RewrittenUpTo(b, now, offset)
    ensures offset + 4 > |now| ==> now == Rewritten(b)
    ensures offset + 4 <= |now| ==>
              var size := ReadBe32(now, offset);
              if size == 0 || offset + 4 + size > |now| then now == Rewritten(b)
              else RewrittenUpTo(b, now[..offset] + StartCode(true) + now[offset + 4..], offset + 4 + size)
  {
    hide Rewritten, ReadBe32, StartCode;
    assert now == now[..offset] + now[offset..];
    if offset + 4 > |now| {
      RewriteUnfold(b[offset..]);
    } else {
      RewriteAt(b, offset);
      SameField(now, b, offset);
      var size := ReadBe32(now, offset);
      if 0 < size && offset + 4 + size <= |now| {
        assert now[offset + 4..] == now[offset..][4..] == b[offset + 4..];
        NextUnit(now[..offset] + StartCode(true) + now[offset + 4..], b, offset, size, now[..offset]);
        var nal, rest := b[offset + 4..offset + 4 + size], Rewritten(b[offset + 4 + size..]);
        assert now[..offset] + (StartCode(true) + nal + rest) == now[..offset] + (StartCode(true) + nal) + rest;
      }
    }
  }

  method Rewrite(buffer: array<byte>)
    modifies buffer
    ensures buffer[..] == Rewritten(old(buffer[..]))
  {
    hide RewrittenUpTo, Rewritten, ReadBe32, StartCode;
    ghost var b := buffer[..];
    RewriteStart(b);
    RewriteRound(b, b, 0);
    if buffer.Length < 4 {
      return;
    }
    var offset: nat := 0;
    while buffer.Length >= offset + 4
      invariant RewrittenUpTo(b, buffer[..], offset)
      decreases buffer.Length - offset
    {
      RewriteRound(b, buffer[..], offset);
      var size := ReadBe32(buffer[..], offset);
      if size == 0 || offset + 4 + size > buffer.Length {
        return;
      }
      PutStartCode(buffer, offset);
      offset := offset + 4 + size;
    }
    RewriteRound(b, buffer[..], offset);
  }

  lemma SameField(now: seq<byte>, b: seq<byte>, offset: nat)
    requires |now| == |b| && offset + 4 <= |b| && now[offset..] == b[offset..]
    ensures ReadBe32(now, offset) == ReadBe32(b, offset)
  {
    FieldAt(now, offset);
    FieldAt(b, offset);
  }

  /** After the four bytes at `offset` have become a start code. */
  lemma NextUnit(now: seq<byte>, b: seq<byte>, offset: nat, size: nat, before: seq<byte>)
    requires |now| == |b| && |before| == offset && offset + 4 + size <= |b|
    requires now == before + StartCode(true) + b[offset + 4..]
    ensures now[..offset + 4 + size] == before + (StartCode(true) + b[offset + 4..offset + 4 + size])
    ensures now[offset + 4 + size..] == b[offset + 4 + size..]
  {
    assert b[offset + 4..] == b[offset + 4..offset + 4 + size] + b[offset + 4 + size..];
  }

  method IsKeyframe(buffer: seq<byte>) returns (yes: bool)
    ensures yes <==> Keyframe(buffer)
  {
    hide ReadBe32;
    if |buffer| < 5 {
      return false;
    }
    var offset: nat := 0;
    assert buffer[0..] == buffer;
    while |buffer| >= offset + 4
      invariant offset <= |buffer|
      invariant Keyframe(buffer) <==> Keyframe(buffer[offset..])
    {
      FieldAt(buffer, offset);
      var size := ReadBe32(buffer, offset);
      if size == 0 || |buffer| < offset + 4 + size {
        break;
      }
      assert buffer[offset..][4] == buffer[offset + 4];
      if buffer[offset + 4] % 32 == 5 {
        return true;
      }
      assert buffer[offset..][4 + size..] == buffer[offset + 4 + size..];
      offset := offset + 4 + size;
    }
    return false;
  }
}
