/** The output side of the secondary-structure script: `create_pred` cuts
    every padded prediction to its protein's length and turns the class
    indices into letters, and the export loop names every residue
    `<protein id>_<position>`, counting positions from 1, in a dictionary
    from residue name to predicted letter. */
module Predictions {
  import opened Outcomes
  import opened SeqUtil
  import opened ResidueCodes
  import Accuracy

  /** The Python exceptions `create_pred` and the export loop can raise. */
  datatype PredError = IndexError | KeyError

  /** The predictions cut to the lengths of the proteins they belong to:
      each is the leading part of its prediction, as long as the shorter of
      the prediction and the protein. */
  function Truncated(sequences: seq<seq<int>>, predictions: seq<seq<int>>): (t: seq<seq<int>>)
    requires |predictions| <= |sequences|
    ensures |t| == |predictions|
    ensures forall i :: 0 <= i < |t| ==>
      && |t[i]| == (if |predictions[i]| < |sequences[i]| then |predictions[i]| else |sequences[i]|)
      && t[i] == predictions[i][..|t[i]|]
  {
    seq(|predictions|, (i: int) requires 0 <= i < |predictions| => Accuracy.Truncate(predictions[i], |sequences[i]|))
  }

  /** `index_to_structure` applied to every protein's indices; a KeyError as
      soon as one index is outside 0 .. 2. */
  function DecodeAll(kss: seq<seq<int>>): (r: Option<seq<string>>)
    ensures r.Some? <==> forall i :: 0 <= i < |kss| ==> Below(kss[i], 3)
    ensures r.Some? ==> |r.value| == |kss|
    ensures r.Some? ==> forall i :: 0 <= i < |kss| ==> Some(r.value[i]) == DecodeStructure(kss[i])
  {
    if |kss| == 0 then Some([])
    else
      var m := |kss| - 1;
      var init := DecodeAll(kss[..m]);
      var last := DecodeStructure(kss[m]);
      assert forall i :: 0 <= i < m ==> kss[..m][i] == kss[i];
      if init.Some? && last.Some? then
        var r := init.value + [last.value];
        assert forall i :: 0 <= i < m ==> r[i] == init.value[i];
        Some(r)
      else None
  }

  /** `create_pred`: an IndexError when there are more predictions than
      proteins, a KeyError when a kept index is not a class, and otherwise
      one structure string per prediction, exactly as long as its protein
      when the padded prediction covers the protein, made of the letters
      C, E, H only, and encoding back to the kept indices. */
  function CreatePred(sequences: seq<seq<int>>, predictions: seq<seq<int>>): (r: Result<seq<string>, PredError>)
    ensures r == Err(IndexError) <==> |predictions| > |sequences|
    ensures r == Err(KeyError) <==>
      (|predictions| <= |sequences| && exists i :: 0 <= i < |predictions| && !Below(Accuracy.Truncate(predictions[i], |sequences[i]|), 3))
    ensures r.Ok? ==> |r.value| == |predictions|
    ensures r.Ok? ==> forall i :: 0 <= i < |predictions| && |predictions[i]| >= |sequences[i]| ==> |r.value[i]| == |sequences[i]|
    ensures r.Ok? ==> forall i :: 0 <= i < |predictions| ==> Over(r.value[i], Structures)
    ensures r.Ok? ==> forall i :: 0 <= i < |predictions| ==> EncodeLabels(r.value[i]) == Some(Accuracy.Truncate(predictions[i], |sequences[i]|))
  {
    if |predictions| > |sequences| then Err(IndexError)
    else
      var t := Truncated(sequences, predictions);
      match DecodeAll(t)
      case None => Err(KeyError)
      case Some(structs) =>
        DecodedEncodeBack(t, structs);
        Ok(structs)
  }

  lemma {:induction false} DecodedEncodeBack(t: seq<seq<int>>, structs: seq<string>)
    requires DecodeAll(t) == Some(structs)
    ensures forall i :: 0 <= i < |t| ==> EncodeLabels(structs[i]) == Some(t[i])
  {
    forall i | 0 <= i < |t| ensures EncodeLabels(structs[i]) == Some(t[i]) {
      IndexRoundTrip(t[i]);
    }
  }

  /** Every character of `s` is a decimal digit. */
  predicate Decimal(s: string)
  {
    forall j :: 0 <= j < |s| ==> '0' <= s[j] <= '9'
  }

  /** `str(n)` for a natural number: its decimal digits. */
  function NatToString(n: nat): (s: string)
    ensures |s| > 0 && Decimal(s)
    decreases n
  {
    var d := (48 + n % 10) as char;
    if n < 10 then [d] else NatToString(n / 10) + [d]
  }

  /** `int(s)` for a string of decimal digits. */
  function ParseNat(s: string): nat
    requires Decimal(s)
  {
    if |s| == 0 then 0 else ParseNat(s[..|s| - 1]) * 10 + (s[|s| - 1] as int - 48)
  }

  /** Reading back the decimal digits of n gives n. */
  lemma {:induction false} ParseNatToString(n: nat)
    ensures ParseNat(NatToString(n)) == n
    decreases n
  {
    if n >= 10 {
      ParseNatToString(n / 10);
      var s := NatToString(n);
      assert s[..|s| - 1] == NatToString(n / 10);
    }
  }

  /** The residue identifier `protein_id + '_' + str(i + 1)` of the residue at
      0-based position i: the identifier, an underscore, and digits that read
      back as i + 1. */
  function ResidueName(pid: string, i: nat): (name: string)
    ensures |name| > |pid| + 1
    ensures name[..|pid|] == pid && name[|pid|] == '_'
    ensures Decimal(name[|pid| + 1..]) && ParseNat(name[|pid| + 1..]) == i + 1
  {
    ParseNatToString(i + 1);
    var name := pid + "_" + NatToString(i + 1);
    assert name[|pid| + 1..] == NatToString(i + 1);
    name
  }

  /** The part after the underscore is all digits, so the underscore a name
      is split at is determined by the name alone. */
  lemma {:induction false} SplitAtUnderscore(p: string, a: string, q: string, b: string)
    requires Decimal(a) && Decimal(b)
    requires p + "_" + a == q + "_" + b
    ensures p == q && a == b
  {
    var s := p + "_" + a;
    assert |a| == |b| by {
      assert s[|p|] == '_' && s[|q|] == '_';
    }
    assert p == s[..|p|];
    assert q == s[..|q|];
    assert a == s[|p| + 1..];
    assert b == s[|q| + 1..];
  }

  /** Residue names are unique: two residues share a name only when they
      are the same position of the same protein, which also makes the
      names within one protein pairwise distinct and 1-based. */
  lemma {:induction false} ResidueNamesUnique(p: string, i: nat, q: string, j: nat)
    ensures ResidueName(p, i) == ResidueName(q, j) <==> p == q && i == j
  {
    if ResidueName(p, i) == ResidueName(q, j) {
      SplitAtUnderscore(p, NatToString(i + 1), q, NatToString(j + 1));
      ParseNatToString(i + 1);
      ParseNatToString(j + 1);
    }
  }

  /** Some residue of protein `pid` among its first n has this name. */
  predicate NameOf(key: string, pid: string, n: nat)
  {
    exists i :: 0 <= i < n && key == ResidueName(pid, i)
  }

  lemma {:induction false} NameOfStep(pid: string, m: nat)
    ensures forall k :: NameOf(k, pid, m + 1) <==> NameOf(k, pid, m) || k == ResidueName(pid, m)
  {
    forall k ensures NameOf(k, pid, m + 1) <==> NameOf(k, pid, m) || k == ResidueName(pid, m) {
      if NameOf(k, pid, m + 1) {
        var i :| 0 <= i < m + 1 && k == ResidueName(pid, i);
        if i < m {
          assert NameOf(k, pid, m);
        }
      }
      if NameOf(k, pid, m) {
        var i :| 0 <= i < m && k == ResidueName(pid, i);
        assert 0 <= i < m + 1;
      }
      if k == ResidueName(pid, m) {
        assert 0 <= m < m + 1 && k == ResidueName(pid, m);
      }
    }
  }

  /** The dictionary `r` is `table` updated with the first n residues of
      protein `pid`: every such residue's name maps to its letter, every
      other entry of `r` was already in `table`, and is unchanged. */
  predicate Added(table: map<string, char>, pid: string, s: string, n: nat, r: map<string, char>)
    requires n <= |s|
  {
    && (forall i :: 0 <= i < n ==> ResidueName(pid, i) in r && r[ResidueName(pid, i)] == s[i])
    && (forall k :: k in r ==> k in table || NameOf(k, pid, n))
    && (forall k :: k in table && !NameOf(k, pid, n) ==> k in r && r[k] == table[k])
  }

  /** The inner loop of the export for one protein: `pred_dict.update`
      with the name and letter of every residue, in order. Every residue's
      name maps to its letter, and every other entry is left as it was. */
  function AddProtein(table: map<string, char>, pid: string, s: string): (r: map<string, char>)
    ensures forall i :: 0 <= i < |s| ==> ResidueName(pid, i) in r && r[ResidueName(pid, i)] == s[i]
    ensures forall k :: k in r ==> k in table || NameOf(k, pid, |s|)
    ensures forall k :: k in table && !NameOf(k, pid, |s|) ==> k in r && r[k] == table[k]
  {
    if |s| == 0 then table
    else
      var m := |s| - 1;
      var init := AddProtein(table, pid, s[..m]);
      var r := init[ResidueName(pid, m) := s[m]];
      AddStep(table, pid, s, init, r);
      r
  }

  lemma {:induction false} AddStep(table: map<string, char>, pid: string, s: string, init: map<string, char>, r: map<string, char>)
    requires |s| > 0
    requires Added(table, pid, s[..|s| - 1], |s| - 1, init)
    requires r == init[ResidueName(pid, |s| - 1) := s[|s| - 1]]
    ensures Added(table, pid, s, |s|, r)
  {
    var m := |s| - 1;
    var key := ResidueName(pid, m);
    NamesBeforeDiffer(pid, m);
    NameOfStep(pid, m);
    forall i | 0 <= i < |s| ensures ResidueName(pid, i) in r && r[ResidueName(pid, i)] == s[i] {
      if i < m {
        assert s[..m][i] == s[i];
        assert ResidueName(pid, i) != key;
      }
    }
    forall k | k in r ensures k in table || NameOf(k, pid, |s|) {
      if k != key {
        assert k in init;
      }
    }
    forall k | k in table && !NameOf(k, pid, |s|) ensures k in r && r[k] == table[k] {
      assert !NameOf(k, pid, m) && k != key;
    }
  }

  lemma {:induction false} NamesBeforeDiffer(pid: string, m: nat)
    ensures forall i :: 0 <= i < m ==> ResidueName(pid, i) != ResidueName(pid, m)
  {
    forall i | 0 <= i < m ensures ResidueName(pid, i) != ResidueName(pid, m) {
      ResidueNamesUnique(pid, i, pid, m);
    }
  }

  /** The export loop over all proteins: `protein_id[index]` fails with an
      IndexError for a protein with residues but no identifier. */
  function PredDict(ids: seq<string>, structs: seq<string>): (r: Result<map<string, char>, PredError>)
    ensures r.Err? <==> exists index :: 0 <= index < |structs| && index >= |ids| && |structs[index]| > 0
    ensures r.Err? ==> r.error == IndexError
  {
    if |structs| == 0 then Ok(map[])
    else
      var m := |structs| - 1;
      var init := PredDict(ids, structs[..m]);
      UnnamedSnoc(ids, structs);
      if init.Err? then init
      else if |structs[m]| == 0 then init
      else if m >= |ids| then Err(IndexError)
      else Ok(AddProtein(init.value, ids[m], structs[m]))
  }

  lemma {:induction false} UnnamedSnoc(ids: seq<string>, structs: seq<string>)
    requires |structs| > 0
    ensures var m := |structs| - 1;
      (exists index :: 0 <= index < |structs| && index >= |ids| && |structs[index]| > 0) <==>
      ((exists index :: 0 <= index < m && index >= |ids| && |structs[..m][index]| > 0) || (m >= |ids| && |structs[m]| > 0))
  {
    var m := |structs| - 1;
    if exists index :: 0 <= index < |structs| && index >= |ids| && |structs[index]| > 0 {
      var index :| 0 <= index < |structs| && index >= |ids| && |structs[index]| > 0;
      if index < m {
        assert structs[..m][index] == structs[index];
      }
    }
    if exists index :: 0 <= index < m && index >= |ids| && |structs[..m][index]| > 0 {
      var index :| 0 <= index < m && index >= |ids| && |structs[..m][index]| > 0;
      assert structs[..m][index] == structs[index];
    }
  }

  /** Without a missing identifier, one more protein adds its residues to
      the dictionary of the proteins before it. */
  lemma {:induction false} PredDictUnfold(ids: seq<string>, structs: seq<string>)
    requires 0 < |structs| <= |ids|
    ensures PredDict(ids, structs[..|structs| - 1]).Ok?
    ensures PredDict(ids, structs).Ok?
    ensures var m := |structs| - 1;
      var t := PredDict(ids, structs[..m]).value;
      PredDict(ids, structs).value == if |structs[m]| == 0 then t else AddProtein(t, ids[m], structs[m])
  {
    PredDictOk(ids, structs[..|structs| - 1]);
    PredDictOk(ids, structs);
  }

  /** With distinct protein identifiers, one per predicted protein, the
      dictionary gives back every residue's predicted letter under its name. */
  lemma {:induction false} PredDictLookup(ids: seq<string>, structs: seq<string>, index: nat, i: nat)
    requires NoDuplicates(ids) && |structs| <= |ids|
    requires index < |structs| && i < |structs[index]|
    ensures PredDict(ids, structs).Ok?
    ensures ResidueName(ids[index], i) in PredDict(ids, structs).value
    ensures PredDict(ids, structs).value[ResidueName(ids[index], i)] == structs[index][i]
    decreases |structs|
  {
    var m := |structs| - 1;
    var init := structs[..m];
    PredDictUnfold(ids, structs);
    var t := PredDict(ids, init).value;
    var key := ResidueName(ids[index], i);
    if index < m {
      assert init[index] == structs[index];
      PredDictLookup(ids, init, index, i);
      assert key in t && t[key] == structs[index][i];
      if |structs[m]| > 0 {
        assert !NameOf(key, ids[m], |structs[m]|) by {
          forall j | 0 <= j < |structs[m]| ensures key != ResidueName(ids[m], j) {
            ResidueNamesUnique(ids[index], i, ids[m], j);
          }
        }
      }
    }
  }

  lemma {:induction false} PredDictOk(ids: seq<string>, structs: seq<string>)
    requires |structs| <= |ids|
    ensures PredDict(ids, structs).Ok?
  {
  }
}
