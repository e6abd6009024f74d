/**
 The character vocabulary of waddle/text.py: the distinct characters of a
 text, the two maps between characters and their indices, and the encoding
 of the text as indices.

 The source takes the distinct characters from `list(set(text))`, whose order
 is not defined. The model takes that order as a parameter and states every
 property for each duplicate-free enumeration of the text's characters.
 */
module Vocabulary {
  import opened Sequences

  /** `order` lists every character of `text` exactly once. */
  predicate IsEnumeration(order: seq<char>, text: string)
  {
    NoDuplicates(order) && Elements(order) == Elements(text)
  }

  /** `{c: idx for idx, c in enumerate(order)}` */
  function CharacterToIndex(order: seq<char>): (m: map<char, nat>)
    requires NoDuplicates(order)
    ensures m.Keys == Elements(order)
    ensures forall i :: 0 <= i < |order| ==> m[order[i]] == i
    ensures forall c :: c in m ==> m[c] < |order| && order[m[c]] == c
  {
    map i | 0 <= i < |order| :: order[i] := i
  }

  /** `{idx: c for idx, c in enumerate(order)}` */
  function IndexToCharacter(order: seq<char>): (m: map<nat, char>)
    ensures forall i: nat :: i in m <==> i < |order|
    ensures forall i: nat :: i < |order| ==> m[i] == order[i]
  {
    map i: nat | i < |order| :: order[i]
  }

  /** An object of class `Text`; its fields are set once, by `NewText`. */
  datatype Text = Text(
    text: string,
    uniqueCharacters: seq<char>,
    characterToIndex: map<char, nat>,
    indexToCharacter: map<nat, char>)
  {
    /** The fields are those `__init__` computes from `text`, for some order of `set(text)`. */
    predicate Valid()
    {
      && IsEnumeration(uniqueCharacters, text)
      && characterToIndex == CharacterToIndex(uniqueCharacters)
      && indexToCharacter == IndexToCharacter(uniqueCharacters)
    }

    /** `vocabulary_size`: the number of distinct characters of the text. */
    function VocabularySize(): (size: nat)
      requires Valid()
      ensures size == |Elements(text)|
    {
      NoDuplicatesCardinality(uniqueCharacters);
      |uniqueCharacters|
    }

    /** `encode_text`: the index of every character of the text, in order. */
    function EncodeText(): (codes: seq<nat>)
      requires Valid()
      ensures |codes| == |text|
      ensures forall i :: 0 <= i < |codes| ==> codes[i] < VocabularySize()
      ensures forall i :: 0 <= i < |codes| ==> codes[i] in indexToCharacter && indexToCharacter[codes[i]] == text[i]
    {
      seq(|text|, i requires 0 <= i < |text| =>
        assert text[i] in Elements(uniqueCharacters);
        characterToIndex[text[i]])
    }

    /** Reading indices back through `index_to_character`, one at a time. */
    function DecodeText(codes: seq<nat>): (s: string)
      requires Valid()
      requires forall i :: 0 <= i < |codes| ==> codes[i] in indexToCharacter
      ensures |s| == |codes|
      ensures forall i :: 0 <= i < |codes| ==> s[i] == indexToCharacter[codes[i]]
    {
      seq(|codes|, i requires 0 <= i < |codes| => indexToCharacter[codes[i]])
    }
  }

  /** `Text.__init__`, with `order` the order in which `set(text)` happens to
      list the characters. */
  function NewText(text: string, order: seq<char>): (t: Text)
    requires IsEnumeration(order, text)
    ensures t.Valid()
    ensures t.text == text && t.uniqueCharacters == order
  {
    Text(text, order, CharacterToIndex(order), IndexToCharacter(order))
  }

  /** Every text has a vocabulary: its distinct characters in order of first
      occurrence are one admissible order of `set(text)`. */
  lemma EveryTextHasAnEnumeration(text: string)
    ensures IsEnumeration(Distinct(text), text)
  {
  }

  /** `character_to_index` maps exactly the characters of the text, each to
      an index below `vocabulary_size`, no two to the same index; and
      `index_to_character` is defined exactly on `[0, vocabulary_size)`. */
  lemma IndexMapsAreDense(t: Text)
    requires t.Valid()
    ensures forall c :: c in t.characterToIndex <==> c in t.text
    ensures forall c :: c in t.characterToIndex ==> t.characterToIndex[c] < t.VocabularySize()
    ensures forall c, d ::
              c in t.characterToIndex && d in t.characterToIndex && t.characterToIndex[c] == t.characterToIndex[d]
              ==> c == d
    ensures forall i: nat :: i in t.indexToCharacter <==> i < t.VocabularySize()
  {
    var size := t.VocabularySize();
    assert size == |t.uniqueCharacters|;
    forall c | c in t.characterToIndex ensures c in t.text {
      assert c in Elements(t.uniqueCharacters);
    }
    forall c | c in t.text ensures c in t.characterToIndex {
      assert c in Elements(t.text);
    }
  }

  /** The two maps undo each other: from a character of the text to its index
      and back, and from an index below `vocabulary_size` to its character
      and back. */
  lemma IndexMapsAreInverse(t: Text)
    requires t.Valid()
    ensures forall c :: c in t.text ==>
              && c in t.characterToIndex
              && t.characterToIndex[c] in t.indexToCharacter
              && t.indexToCharacter[t.characterToIndex[c]] == c
    ensures forall i: nat :: i < t.VocabularySize() ==>
              && i in t.indexToCharacter
              && t.indexToCharacter[i] in t.characterToIndex
              && t.characterToIndex[t.indexToCharacter[i]] == i
  {
    IndexMapsAreDense(t);
    forall i: nat | i < t.VocabularySize()
      ensures t.characterToIndex[t.indexToCharacter[i]] == i
    {
      assert t.indexToCharacter[i] == t.uniqueCharacters[i];
    }
  }

  /** Decoding `encode_text()` index by index through `index_to_character`
      gives back the text. */
  lemma DecodeEncode(t: Text)
    requires t.Valid()
    ensures t.DecodeText(t.EncodeText()) == t.text
  {
    var codes := t.EncodeText();
    assert |t.DecodeText(codes)| == |t.text|;
  }
}
