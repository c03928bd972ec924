/** The byte stream format of H.264 (Annex B, section B.1): NAL units behind start codes. */
module AnnexB {
  import opened Bytes

  predicate ShortCodeAt(d: seq<byte>, i: nat) {
    i + 3 <= |d| && d[i] == 0 && d[i + 1] == 0 && d[i + 2] == 1
  }

  predicate LongCodeAt(d: seq<byte>, i: nat) {
    i + 4 <= |d| && d[i] == 0 && d[i + 1] == 0 && d[i + 2] == 0 && d[i + 3] == 1
  }

  function StartCode(long: bool): seq<byte> {
    if long then [0, 0, 0, 1] else [0, 0, 1]
  }

  predicate AllNonempty(nals: seq<seq<byte>>) {
    forall k | 0 <= k < |nals| :: nals[k] != []
  }

  /** NAL units behind start codes, the long ones where `long` says so. */
  function Render(nals: seq<seq<byte>>, long: seq<bool>): seq<byte>
    requires |nals| == |long|
  {
    if nals == [] then [] else StartCode(long[0]) + nals[0] + Render(nals[1..], long[1..])
  }

  /** A NAL unit an encoder may produce: emulation prevention leaves no start code
      in it, and its last byte is not zero. */
  predicate WellFormed(nal: seq<byte>) {
    nal != [] && nal[|nal| - 1] != 0 && forall i | 0 <= i < |nal| :: !ShortCodeAt(nal, i)
  }

  /** No start code begins inside a well-formed NAL, not even one that reaches into the bytes behind it. */
  lemma NoCodeInside(d: seq<byte>, start: nat, nal: seq<byte>, e: nat)
    requires WellFormed(nal) && start + |nal| <= |d| && d[start..start + |nal|] == nal
    requires start <= e < start + |nal|
    ensures !ShortCodeAt(d, e) && !LongCodeAt(d, e)
  {
    var at, last := e - start, |nal| - 1;
    assert forall i | 0 <= i < |nal| :: d[start + i] == d[start..start + |nal|][i] == nal[i];
    assert nal[last] != 0 && !ShortCodeAt(nal, at);
    assert at + 2 <= last ==> d[e] == nal[at] && d[e + 1] == nal[at + 1] && d[e + 2] == nal[at + 2];
    assert at == last ==> d[e] != 0;
    assert at + 1 == last ==> d[e] == nal[at] && d[e + 1] != 0;
    if at + 1 <= last {
      assert !ShortCodeAt(nal, at + 1);
      assert at + 3 <= last ==> d[e + 3] == nal[at + 3];
    }
  }

  /** NAL units each behind a long start code, as both rewriters of this model write them. */
  function Unit(nals: seq<seq<byte>>): seq<byte> {
    Render(nals, seq(|nals|, _ => true))
  }

  lemma {:induction false} UnitSnoc(nals: seq<seq<byte>>, nal: seq<byte>)
    ensures Unit(nals + [nal]) == Unit(nals) + StartCode(true) + nal
  {
    if nals == [] {
      assert nals + [nal] == [nal] && [nal][1..] == [];
      UnitCons([nal]);
      assert StartCode(true) + nal + [] == [] + StartCode(true) + nal;
    } else {
      assert (nals + [nal])[1..] == nals[1..] + [nal];
      UnitCons(nals + [nal]);
      UnitCons(nals);
      UnitSnoc(nals[1..], nal);
    }
  }

  lemma UnitCons(nals: seq<seq<byte>>)
    requires nals != []
    ensures Unit(nals) == StartCode(true) + nals[0] + Unit(nals[1..])
  {
    assert seq(|nals|, _ => true)[1..] == seq(|nals| - 1, _ => true);
  }

  lemma UnitNone()
    ensures Unit([]) == []
  {
  }
}
