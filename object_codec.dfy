/** The one-character code of each grid object (a 20-entry dictionary). */
module ObjectCodec {
  import opened Wrappers
  import opened GridTypes

  /** The character of each colour in a coloured type's three-letter code string. */
  function ColorChar(codes: seq<char>, color: Color): char
    requires |codes| == 3
  {
    match color
    case Color1 => codes[0]
    case Color2 => codes[1]
    case Color3 => codes[2]
  }

  function ObjectChar(obj: GridObject): char {
    match obj
    case Empty => 'X'
    case Destroyed => 'Y'
    case PillTop(c) => ColorChar("OWG", c)
    case PillBottom(c) => ColorChar("MUE", c)
    case PillLeft(c) => ColorChar("LTD", c)
    case PillRight(c) => ColorChar("JRB", c)
    case PillSegment(c) => ColorChar("KSC", c)
    case Virus(c) => ColorChar("NVF", c)
  }

  function CharObject(ch: char): Option<GridObject> {
    match ch
    case 'X' => Some(Empty)
    case 'Y' => Some(Destroyed)
    case 'O' => Some(PillTop(Color1))
    case 'W' => Some(PillTop(Color2))
    case 'G' => Some(PillTop(Color3))
    case 'M' => Some(PillBottom(Color1))
    case 'U' => Some(PillBottom(Color2))
    case 'E' => Some(PillBottom(Color3))
    case 'L' => Some(PillLeft(Color1))
    case 'T' => Some(PillLeft(Color2))
    case 'D' => Some(PillLeft(Color3))
    case 'J' => Some(PillRight(Color1))
    case 'R' => Some(PillRight(Color2))
    case 'B' => Some(PillRight(Color3))
    case 'K' => Some(PillSegment(Color1))
    case 'S' => Some(PillSegment(Color2))
    case 'C' => Some(PillSegment(Color3))
    case 'N' => Some(Virus(Color1))
    case 'V' => Some(Virus(Color2))
    case 'F' => Some(Virus(Color3))
    case _ => None
  }

  /** The dictionary, entry by entry. */
  const DICTIONARY: seq<(char, GridObject)> := [
    ('Y', Destroyed), ('X', Empty),
    ('O', PillTop(Color1)), ('W', PillTop(Color2)), ('G', PillTop(Color3)),
    ('M', PillBottom(Color1)), ('U', PillBottom(Color2)), ('E', PillBottom(Color3)),
    ('L', PillLeft(Color1)), ('T', PillLeft(Color2)), ('D', PillLeft(Color3)),
    ('J', PillRight(Color1)), ('R', PillRight(Color2)), ('B', PillRight(Color3)),
    ('K', PillSegment(Color1)), ('S', PillSegment(Color2)), ('C', PillSegment(Color3)),
    ('N', Virus(Color1)), ('V', Virus(Color2)), ('F', Virus(Color3))
  ]

  /** Decoding inverts encoding on every grid object. */
  lemma ObjectRoundTrip(obj: GridObject)
    ensures CharObject(ObjectChar(obj)) == Some(obj)
  {
  }

  /** Encoding inverts decoding on every character the dictionary knows. */
  lemma CharRoundTrip(ch: char)
    ensures CharObject(ch).Some? ==> ObjectChar(CharObject(ch).value) == ch
  {
  }

  /** Distinct objects have distinct characters. */
  lemma ObjectCharInjective(a: GridObject, b: GridObject)
    ensures ObjectChar(a) == ObjectChar(b) ==> a == b
  {
    ObjectRoundTrip(a);
    ObjectRoundTrip(b);
  }

  /** Each dictionary entry agrees with the two functions and sits at its object's index. */
  lemma DictionaryEntries(k: nat)
    requires k < |DICTIONARY|
    ensures ObjectChar(DICTIONARY[k].1) == DICTIONARY[k].0
    ensures CharObject(DICTIONARY[k].0) == Some(DICTIONARY[k].1)
    ensures DictionaryIndex(DICTIONARY[k].1) == k
  {
    if k < 2 { ColorlessEntries(k); }
    else if k < 8 { VerticalPillEntries(k); }
    else if k < 14 { HorizontalPillEntries(k); }
    else { SegmentAndVirusEntries(k); }
  }

  /** The entries of Empty and Destroyed. */
  lemma ColorlessEntries(k: nat)
    requires k < 2
    ensures ObjectChar(DICTIONARY[k].1) == DICTIONARY[k].0
    ensures CharObject(DICTIONARY[k].0) == Some(DICTIONARY[k].1)
    ensures DictionaryIndex(DICTIONARY[k].1) == k
  {
    assert k == 0 || k == 1;
  }

  /** The entries of the top and bottom pill halves. */
  lemma VerticalPillEntries(k: nat)
    requires 2 <= k < 8
    ensures ObjectChar(DICTIONARY[k].1) == DICTIONARY[k].0
    ensures CharObject(DICTIONARY[k].0) == Some(DICTIONARY[k].1)
    ensures DictionaryIndex(DICTIONARY[k].1) == k
  {
    assert k == 2 || k == 3 || k == 4 || k == 5 || k == 6 || k == 7;
  }

  /** The entries of the left and right pill halves. */
  lemma HorizontalPillEntries(k: nat)
    requires 8 <= k < 14
    ensures ObjectChar(DICTIONARY[k].1) == DICTIONARY[k].0
    ensures CharObject(DICTIONARY[k].0) == Some(DICTIONARY[k].1)
    ensures DictionaryIndex(DICTIONARY[k].1) == k
  {
    assert k == 8 || k == 9 || k == 10 || k == 11 || k == 12 || k == 13;
  }

  /** The entries of the lone segments and the viruses. */
  lemma SegmentAndVirusEntries(k: nat)
    requires 14 <= k < 20
    ensures ObjectChar(DICTIONARY[k].1) == DICTIONARY[k].0
    ensures CharObject(DICTIONARY[k].0) == Some(DICTIONARY[k].1)
    ensures DictionaryIndex(DICTIONARY[k].1) == k
  {
    assert k == 14 || k == 15 || k == 16 || k == 17 || k == 18 || k == 19;
  }

  /** The dictionary's 20 characters are distinct, and it lists every grid object. */
  lemma DictionaryIsTheCode()
    ensures |DICTIONARY| == 20
    ensures forall j, k :: 0 <= j < k < |DICTIONARY| ==> DICTIONARY[j].0 != DICTIONARY[k].0
    ensures forall obj: GridObject :: (ObjectChar(obj), obj) in DICTIONARY
  {
    forall j, k | 0 <= j < k < |DICTIONARY| ensures DICTIONARY[j].0 != DICTIONARY[k].0 {
      DictionaryEntries(j);
      DictionaryEntries(k);
      ObjectCharInjective(DICTIONARY[j].1, DICTIONARY[k].1);
    }
    forall obj: GridObject ensures (ObjectChar(obj), obj) in DICTIONARY {
      var k := DictionaryIndex(obj);
      DictionaryEntries(k);
      assert DICTIONARY[k] == (ObjectChar(obj), obj);
    }
  }

  /** Where each object sits in the dictionary. */
  function DictionaryIndex(obj: GridObject): (k: nat)
    ensures k < |DICTIONARY| && DICTIONARY[k].1 == obj
  {
    var base := match obj
      case Destroyed => 0
      case Empty => 1
      case PillTop(_) => 2
      case PillBottom(_) => 5
      case PillLeft(_) => 8
      case PillRight(_) => 11
      case PillSegment(_) => 14
      case Virus(_) => 17;
    var offset := match ColorOf(obj)
      case None => 0
      case Some(c) => (match c case Color1 => 0 case Color2 => 1 case Color3 => 2);
    base + offset
  }

  /** Empty and Destroyed are the colourless objects: one code each, and no colour. */
  lemma ColorlessCodes(ch: char)
    ensures CharObject(ch).Some? && !HasColor(CharObject(ch).value) <==> ch == 'X' || ch == 'Y'
  {
  }

  /** The one-object string codec: a single dictionary character, anything else fails. */
  function EncodeObject(obj: GridObject): (s: seq<char>)
    ensures |s| == 1
  {
    [ObjectChar(obj)]
  }

  function DecodeObject(s: seq<char>): (r: Result<GridObject, seq<char>>)
    ensures r.Ok? <==> |s| == 1 && CharObject(s[0]).Some?
  {
    if |s| == 1 && CharObject(s[0]).Some? then Ok(CharObject(s[0]).value)
    else Err("not a grid object code")
  }

  lemma EncodeObjectRoundTrip(obj: GridObject)
    ensures DecodeObject(EncodeObject(obj)) == Ok(obj)
  {
    ObjectRoundTrip(obj);
  }

  /** The characters used in the encoding fixtures decode as the fixtures expect. */
  lemma FixtureCharacters()
    ensures CharObject('X') == Some(Empty) && CharObject('Y') == Some(Destroyed)
    ensures CharObject('V') == Some(Virus(Color2)) && CharObject('N') == Some(Virus(Color1))
    ensures CharObject('O') == Some(PillTop(Color1)) && CharObject('E') == Some(PillBottom(Color3))
    ensures CharObject('S') == Some(PillSegment(Color2)) && CharObject('K') == Some(PillSegment(Color1))
    ensures CharObject('D') == Some(PillLeft(Color3)) && CharObject('R') == Some(PillRight(Color2))
  {
  }
}
