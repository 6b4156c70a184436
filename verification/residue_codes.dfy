/** The fixed dictionaries of the secondary-structure script: `acid_dict`
    numbers the twenty standard amino acids 0 .. 19 in the order of
    "ACDEFGHIKLMNPQRSTVWY", `label_dict` numbers the structure classes
    C, E, H as 0, 1, 2, and `index_to_structure` turns those numbers back
    into letters. */
module ResidueCodes {
  import opened Outcomes
  import opened SeqUtil

  const Acids: string := "ACDEFGHIKLMNPQRSTVWY"

  predicate AscendingChars(s: string)
  {
    forall i :: 0 < i < |s| ==> s[i - 1] < s[i]
  }

  lemma {:induction false} AscendingDistinct(s: string)
    requires AscendingChars(s)
    ensures NoDuplicates(s)
    ensures forall i, j :: 0 <= i < j < |s| ==> s[i] < s[j]
    decreases |s|
  {
    if |s| > 1 {
      var init := s[..|s| - 1];
      assert AscendingChars(init);
      AscendingDistinct(init);
      forall i | 0 <= i < |s| - 1 ensures s[i] < s[|s| - 1] {
        assert init[i] == s[i];
        if i < |s| - 2 {
          assert init[i] < init[|s| - 2];
        }
      }
    }
  }

  /** The twenty letters are pairwise different, so `dict(zip(...))` gives
      each its own position. */
  lemma {:induction false} AcidsDistinct()
    ensures |Acids| == 20
    ensures NoDuplicates(Acids)
  {
    assert AscendingChars(Acids);
    AscendingDistinct(Acids);
  }

  /** `acid_dict.get(c)`: absent for anything but the twenty letters. */
  function AcidIndex(c: char): (r: Option<nat>)
    ensures r.Some? <==> c in Acids
    ensures r.Some? ==> r.value < 20 && Acids[r.value] == c
  {
    if c in Acids then Some(IndexOf(Acids, c)) else None
  }

  /** Every letter's index leads back to it and every index 0 .. 19 belongs
      to exactly one letter: the dictionary is a bijection onto 0 .. 19. */
  lemma {:induction false} AcidIndexBijective(i: nat, c: char, d: char)
    requires i < 20
    ensures AcidIndex(Acids[i]) == Some(i)
    ensures AcidIndex(c).Some? && AcidIndex(c) == AcidIndex(d) ==> c == d
  {
    AcidsDistinct();
  }

  /** Every letter of `s` is one of `alphabet`. */
  predicate Over(s: string, alphabet: string)
  {
    forall c :: c in s ==> c in alphabet
  }

  /** Every index of `ks` lies in 0 .. n - 1. */
  predicate Below(ks: seq<int>, n: int)
  {
    forall k :: k in ks ==> 0 <= k < n
  }

  lemma {:induction false} OverSnoc(s: string, alphabet: string)
    requires |s| > 0
    ensures Over(s, alphabet) <==> Over(s[..|s| - 1], alphabet) && s[|s| - 1] in alphabet
  {
    assert s == s[..|s| - 1] + [s[|s| - 1]];
  }

  lemma {:induction false} BelowSnoc(ks: seq<int>, n: int)
    requires |ks| > 0
    ensures Below(ks, n) <==> Below(ks[..|ks| - 1], n) && 0 <= ks[|ks| - 1] < n
  {
    var init, x := ks[..|ks| - 1], ks[|ks| - 1];
    assert ks == init + [x];
    if Below(init, n) && 0 <= x < n {
      forall k | k in ks ensures 0 <= k < n {
        if k != x {
          assert k in init;
        }
      }
    }
    if Below(ks, n) {
      assert x in ks;
      forall k | k in init ensures 0 <= k < n {
        assert k in ks;
      }
    }
  }

  /** The residues of a protein as indices; absent when some residue is not
      one of the twenty letters (the script then fails building its tensor). */
  function EncodeAcids(s: string): (r: Option<seq<int>>)
    ensures r.Some? <==> Over(s, Acids)
    ensures r.Some? ==> |r.value| == |s| && Below(r.value, 20)
  {
    if |s| == 0 then Some([])
    else
      var init := EncodeAcids(s[..|s| - 1]);
      var last := AcidIndex(s[|s| - 1]);
      OverSnoc(s, Acids);
      if init.Some? && last.Some? then
        var ks := init.value + [last.value as int];
        BelowSnoc(ks, 20);
        assert ks[..|ks| - 1] == init.value;
        Some(ks)
      else None
  }

  function DecodeAcids(ks: seq<int>): (s: string)
    requires Below(ks, 20)
    ensures |s| == |ks|
  {
    if |ks| == 0 then ""
    else
      BelowSnoc(ks, 20);
      DecodeAcids(ks[..|ks| - 1]) + [Acids[ks[|ks| - 1]]]
  }

  /** Decoding the indices of a protein gives its residues back. */
  lemma {:induction false} AcidsRoundTrip(s: string)
    requires Over(s, Acids)
    ensures DecodeAcids(EncodeAcids(s).value) == s
    decreases |s|
  {
    if |s| > 0 {
      var init, x := s[..|s| - 1], s[|s| - 1];
      OverSnoc(s, Acids);
      AcidsRoundTrip(init);
      var k := AcidIndex(x).value;
      assert Acids[k] == x;
      var ks := EncodeAcids(s).value;
      assert ks == EncodeAcids(init).value + [k];
      assert ks[..|ks| - 1] == EncodeAcids(init).value;
      assert DecodeAcids(ks) == DecodeAcids(EncodeAcids(init).value) + [x];
      assert s == init + [x];
    }
  }

  const Structures: string := "CEH"

  /** `label_dict.get(c)`: C, E, H are 0, 1, 2; anything else is absent. */
  function LabelIndex(c: char): (r: Option<nat>)
    ensures r.Some? <==> c in Structures
    ensures r.Some? ==> r.value < 3 && Structures[r.value] == c
  {
    if c == 'C' then Some(0) else if c == 'E' then Some(1) else if c == 'H' then Some(2) else None
  }

  /** `index_to_structure[i]`: the inverse of `label_dict`; absent (a
      KeyError) outside 0 .. 2. */
  function IndexToStructure(i: int): (r: Option<char>)
    ensures r.Some? <==> 0 <= i < 3
    ensures r.Some? ==> r.value in Structures && LabelIndex(r.value) == Some(i as nat)
  {
    if i == 0 then Some('C') else if i == 1 then Some('E') else if i == 2 then Some('H') else None
  }

  /** The two dictionaries are mutual inverses. */
  lemma {:induction false} LabelsInverse(c: char, i: int)
    ensures c in Structures ==> IndexToStructure(LabelIndex(c).value as int) == Some(c)
    ensures 0 <= i < 3 ==> LabelIndex(IndexToStructure(i).value) == Some(i as nat)
  {
  }

  /** The label indices of a structure string; absent when some letter is
      not C, E or H. */
  function EncodeLabels(s: string): (r: Option<seq<int>>)
    ensures r.Some? <==> Over(s, Structures)
    ensures r.Some? ==> |r.value| == |s| && Below(r.value, 3)
  {
    if |s| == 0 then Some([])
    else
      var init := EncodeLabels(s[..|s| - 1]);
      var last := LabelIndex(s[|s| - 1]);
      OverSnoc(s, Structures);
      if init.Some? && last.Some? then
        var ks := init.value + [last.value as int];
        BelowSnoc(ks, 3);
        assert ks[..|ks| - 1] == init.value;
        Some(ks)
      else None
  }

  /** The list comprehension over `index_to_structure`: a KeyError (absent)
      as soon as one index is outside 0 .. 2. */
  function DecodeStructure(ks: seq<int>): (r: Option<string>)
    ensures r.Some? <==> Below(ks, 3)
    ensures r.Some? ==> |r.value| == |ks| && Over(r.value, Structures)
  {
    if |ks| == 0 then Some("")
    else
      var init := DecodeStructure(ks[..|ks| - 1]);
      var last := IndexToStructure(ks[|ks| - 1]);
      BelowSnoc(ks, 3);
      if init.Some? && last.Some? then
        var s := init.value + [last.value];
        OverSnoc(s, Structures);
        assert s[..|s| - 1] == init.value;
        Some(s)
      else None
  }

  /** Encoding a structure string and decoding the indices returns it. */
  lemma {:induction false} StructureRoundTrip(s: string)
    requires Over(s, Structures)
    ensures DecodeStructure(EncodeLabels(s).value) == Some(s)
    decreases |s|
  {
    if |s| > 0 {
      var init := s[..|s| - 1];
      OverSnoc(s, Structures);
      StructureRoundTrip(init);
      var ks := EncodeLabels(s).value;
      assert ks == EncodeLabels(init).value + [LabelIndex(s[|s| - 1]).value as int];
      assert ks[..|ks| - 1] == EncodeLabels(init).value;
      assert s == init + [s[|s| - 1]];
    }
  }

  /** Decoding predicted indices and encoding the letters returns the indices. */
  lemma {:induction false} IndexRoundTrip(ks: seq<int>)
    requires Below(ks, 3)
    ensures EncodeLabels(DecodeStructure(ks).value) == Some(ks)
    decreases |ks|
  {
    if |ks| > 0 {
      var init := ks[..|ks| - 1];
      BelowSnoc(ks, 3);
      IndexRoundTrip(init);
      var s := DecodeStructure(ks).value;
      assert s == DecodeStructure(init).value + [IndexToStructure(ks[|ks| - 1]).value];
      assert s[..|s| - 1] == DecodeStructure(init).value;
      assert ks == init + [ks[|ks| - 1]];
    }
  }
}
