/** Pill colour pairs as one character each (`1`-`9`), and pill sequences as strings of them. */
module PillCodec {
  import opened Wrappers
  import opened GridTypes

  /** The colours of a pill's two halves, in order. */
  datatype PillColors = PillColors(first: Color, second: Color)

  function ColorIndex(c: Color): (k: nat)
    ensures k < 3
  {
    match c
    case Color1 => 0
    case Color2 => 1
    case Color3 => 2
  }

  function IndexColor(k: nat): Color
    requires k < 3
  {
    if k == 0 then Color1 else if k == 1 then Color2 else Color3
  }

  function EncodePillColors(p: PillColors): (s: seq<char>)
    ensures |s| == 1 && '1' <= s[0] <= '9'
  {
    [(('1' as int) + 3 * ColorIndex(p.first) + ColorIndex(p.second)) as char]
  }

  function DecodePillColors(s: seq<char>): (r: Option<PillColors>)
    ensures r.Some? ==> |s| == 1 && '1' <= s[0] <= '9'
  {
    if |s| == 1 && '1' <= s[0] <= '9' then
      var k := (s[0] as int) - ('1' as int);
      Some(PillColors(IndexColor(k / 3), IndexColor(k % 3)))
    else None
  }

  /** Every ordered pair of colours survives the round trip. */
  lemma PillColorsRoundTrip(p: PillColors)
    ensures DecodePillColors(EncodePillColors(p)) == Some(p)
  {
    var k := 3 * ColorIndex(p.first) + ColorIndex(p.second);
    assert k / 3 == ColorIndex(p.first) && k % 3 == ColorIndex(p.second);
  }

  /** The nine pairs have nine distinct characters. */
  lemma PillColorsInjective(p: PillColors, q: PillColors)
    ensures EncodePillColors(p) == EncodePillColors(q) ==> p == q
  {
    PillColorsRoundTrip(p);
    PillColorsRoundTrip(q);
  }

  /** Encoding inverts decoding on the nine characters `1`-`9`. */
  lemma PillCharRoundTrip(s: seq<char>)
    requires DecodePillColors(s).Some?
    ensures EncodePillColors(DecodePillColors(s).value) == s
  {
    var k := (s[0] as int) - ('1' as int);
    assert 3 * (k / 3) + k % 3 == k;
  }

  function EncodePillSequence(ps: seq<PillColors>): (s: seq<char>)
    ensures |s| == |ps|
    ensures forall k :: 0 <= k < |ps| ==> [s[k]] == EncodePillColors(ps[k])
  {
    if ps == [] then [] else EncodePillSequence(ps[..|ps| - 1]) + EncodePillColors(ps[|ps| - 1])
  }

  /** Decodes character by character; None when any character is not a pair code. */
  function DecodePillSequence(s: seq<char>): (r: Option<seq<PillColors>>)
    ensures r.Some? ==> |r.value| == |s|
    ensures r.Some? <==> forall k :: 0 <= k < |s| ==> DecodePillColors([s[k]]).Some?
    ensures r.Some? ==> forall k :: 0 <= k < |s| ==> DecodePillColors([s[k]]) == Some(r.value[k])
  {
    if s == [] then Some([])
    else
      var front := DecodePillSequence(s[..|s| - 1]);
      var last := DecodePillColors([s[|s| - 1]]);
      if front.None? || last.None? then None else Some(front.value + [last.value])
  }

  lemma {:induction false} PillSequenceRoundTrip(ps: seq<PillColors>)
    ensures DecodePillSequence(EncodePillSequence(ps)) == Some(ps)
  {
    if ps != [] {
      var s := EncodePillSequence(ps);
      var front := ps[..|ps| - 1];
      PillSequenceRoundTrip(front);
      assert s[..|s| - 1] == EncodePillSequence(front);
      assert [s[|s| - 1]] == EncodePillColors(ps[|ps| - 1]);
      PillColorsRoundTrip(ps[|ps| - 1]);
      assert front + [ps[|ps| - 1]] == ps;
    }
  }

  /** Two sequences with the same encoding are the same sequence. */
  lemma EncodePillSequenceInjective(ps: seq<PillColors>, qs: seq<PillColors>)
    ensures EncodePillSequence(ps) == EncodePillSequence(qs) ==> ps == qs
  {
    PillSequenceRoundTrip(ps);
    PillSequenceRoundTrip(qs);
  }

  /** Every text that decodes is the encoding of what it decodes to. */
  lemma PillSequenceTextRoundTrip(t: seq<char>)
    requires DecodePillSequence(t).Some?
    ensures EncodePillSequence(DecodePillSequence(t).value) == t
  {
    var ps := DecodePillSequence(t).value;
    var s := EncodePillSequence(ps);
    forall k | 0 <= k < |t|
      ensures s[k] == t[k]
    {
      PillCharRoundTrip([t[k]]);
      assert [s[k]] == EncodePillColors(ps[k]) == [t[k]];
    }
  }

  /** The sequence of the encoding fixture. */
  lemma PillSequenceExample()
    ensures var ps := [PillColors(Color1, Color2), PillColors(Color2, Color3), PillColors(Color3, Color3)];
      |EncodePillSequence(ps)| == 3 && DecodePillSequence(EncodePillSequence(ps)) == Some(ps)
  {
    PillSequenceRoundTrip([PillColors(Color1, Color2), PillColors(Color2, Color3), PillColors(Color3, Color3)]);
  }
}
