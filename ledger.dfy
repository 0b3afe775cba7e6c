/**
 * The failed-mods ledger `failed_mods.txt`: `update_mods` appends one line
 * `id\n` per mod whose attempts ran out, and `retry_failed_mods` reads the
 * stripped, non-blank lines back.
 */
module Ledger {
  import opened Base
  import opened Text

  /** The file's text after appending each id in turn, each followed by "\n". */
  function Serialize(ids: seq<string>): (r: string)
  {
    if ids == [] then [] else ids[0] + "\n" + Serialize(ids[1..])
  }

  /** Appending one more line extends the text at its end. */
  lemma {:induction false} SerializeSnoc(ids: seq<string>, id: string)
    ensures Serialize(ids + [id]) == Serialize(ids) + id + "\n"
    decreases |ids|
  {
    if ids != [] {
      assert (ids + [id])[1..] == ids[1..] + [id];
      SerializeSnoc(ids[1..], id);
    }
  }

  /** `[l.strip() for l in lines if l.strip()]`. */
  function KeepIds(lines: seq<string>): (r: seq<string>)
    ensures |r| <= |lines|
    ensures forall i :: 0 <= i < |r| ==> r[i] != [] && Stripped(r[i])
  {
    if lines == [] then []
    else
      var w := Strip(lines[0]);
      (if w == [] then [] else [w]) + KeepIds(lines[1..])
  }

  /** The ids `retry_failed_mods` reads from the ledger's text, in file order. */
  function ReadLedger(text: string): (r: seq<string>)
    ensures forall i :: 0 <= i < |r| ==> r[i] != [] && Stripped(r[i]) && NoBreak(r[i])
  {
    var r := KeepIds(Lines(text));
    KeepIdsNoBreak(Lines(text));
    r
  }

  lemma {:induction false} KeepIdsNoBreak(lines: seq<string>)
    requires forall i :: 0 <= i < |lines| ==> NoBreak(lines[i])
    ensures forall i :: 0 <= i < |KeepIds(lines)| ==> NoBreak(KeepIds(lines)[i])
    decreases |lines|
  {
    if lines != [] {
      KeepIdsNoBreak(lines[1..]);
      StripInside(lines[0]);
    }
  }

  /** Stripping only removes characters from the ends. */
  lemma StripInside(s: string)
    ensures NoBreak(s) ==> NoBreak(Strip(s))
  {
    var l := StripLeft(s);
    StripLeftDrops(s);
    StripRightDrops(l);
    if NoBreak(s) {
      assert forall i :: 0 <= i < |l| ==> l[i] == s[|s| - |l| + i];
      assert forall i :: 0 <= i < |Strip(s)| ==> Strip(s)[i] == l[i];
    }
  }

  /** An id that survives the ledger unchanged: non-empty, no surrounding white space, no line break. */
  predicate LedgerSafe(id: string) {
    id != [] && Stripped(id) && NoBreak(id)
  }

  /** Reading the ledger gives back the ids written to it, in order. */
  lemma {:induction false} ReadSerialize(ids: seq<string>)
    requires forall i :: 0 <= i < |ids| ==> LedgerSafe(ids[i])
    ensures ReadLedger(Serialize(ids)) == ids
    decreases |ids|
  {
    if ids == [] {
      assert Lines([]) == [[]];
      assert Strip([]) == [];
    } else {
      var rest := Serialize(ids[1..]);
      ReadSerialize(ids[1..]);
      assert ids[0] + "\n" + rest == ids[0] + ['\n'] + rest;
      LinesCons(ids[0], '\n', rest);
      var ls := Lines(Serialize(ids));
      assert ls == [ids[0]] + Lines(rest);
      assert ls[1..] == Lines(rest);
      StripStripped(ids[0]);
      assert [ids[0]] + ids[1..] == ids;
    }
  }
}
