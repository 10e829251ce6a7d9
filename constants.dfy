/** The fixed data of constants.ts: the alphabet in order and every letter's
    French pronunciation. */
module Constants {

  /** ALPHABET_FR: the 26 letters, each a one-character string; position i
      holds the i-th capital of the Latin alphabet (AlphabetIsListed spells the
      list out). */
  function Alphabet(): seq<string> {
    seq(26, i requires 0 <= i < 26 => LatinLetter(i))
  }

  /** ALPHABET_PRONUNCIATIONS: letter to the text handed to speech synthesis. */
  const Pronunciations: map<string, string> := map[
    "A" := "a", "B" := "bé", "C" := "cé", "D" := "dé", "E" := "e", "F" := "effe",
    "G" := "gé", "H" := "ache", "I" := "i", "J" := "ji", "K" := "ka", "L" := "elle",
    "M" := "emme", "N" := "enne", "O" := "o", "P" := "pé", "Q" := "ku", "R" := "erre",
    "S" := "esse", "T" := "té", "U" := "u", "V" := "vé", "W" := "double vé",
    "X" := "ixe", "Y" := "i grec", "Z" := "zède"
  ]

  /** The letter a zero-based position of the Latin alphabet names: position 0 is "A". */
  function LatinLetter(i: nat): (r: string)
    requires i < 26
    ensures |r| == 1 && 'A' <= r[0] <= 'Z' && r[0] as int - 'A' as int == i
  {
    [('A' as int + i) as char]
  }

  /** The alphabet is the literal list of constants.ts. */
  lemma AlphabetIsListed()
    ensures Alphabet() == [
      "A", "B", "C", "D", "E", "F", "G", "H", "I", "J", "K", "L", "M",
      "N", "O", "P", "Q", "R", "S", "T", "U", "V", "W", "X", "Y", "Z"
    ]
  {
  }

  /** 26 letters, in order "A" to "Z". */
  lemma AlphabetInOrder()
    ensures |Alphabet()| == 26
    ensures forall i :: 0 <= i < 26 ==> Alphabet()[i] == LatinLetter(i)
  {
  }

  /** The alphabet's members are exactly the one-character capital strings. */
  lemma AlphabetMembers(l: string)
    ensures l in Alphabet() <==> |l| == 1 && 'A' <= l[0] <= 'Z'
  {
    if |l| == 1 && 'A' <= l[0] <= 'Z' {
      var i := l[0] as int - 'A' as int;
      assert Alphabet()[i] == l;
    }
  }

  /** No letter appears twice. */
  lemma AlphabetDistinct()
    ensures forall i, j :: 0 <= i < j < |Alphabet()| ==> Alphabet()[i] != Alphabet()[j]
  {
    forall i, j | 0 <= i < j < |Alphabet()| ensures Alphabet()[i] != Alphabet()[j] {
      assert Alphabet()[i][0] != Alphabet()[j][0];
    }
  }

  lemma PronunciationKeysAreAlphabet()
    ensures Pronunciations.Keys == set l | l in Alphabet()
  {
    AlphabetIsListed();
  }

  lemma PronunciationsNonEmpty()
    ensures forall l :: l in Pronunciations ==> Pronunciations[l] != ""
    ensures Pronunciations["W"] == "double vé" && Pronunciations["Y"] == "i grec"
  {
  }
}
