/**
 What the offline reassembly makes of any fragments at all: of several names, with fragments missing, with headers
 that cannot be read.  The digits are described without the functions that read, strip and decode them.
 */
module LmpPieces {
  import opened Bytes
  import opened Wrappers
  import opened LmpName

  // ---------- Digits ----------

  /** The bytes spelled by the digits, two for each. */
  ghost predicate Spells(ds: seq<Digit>, bs: seq<Byte>) {
    |ds| == 2 * |bs| && forall i :: 0 <= i < |bs| ==> ds[2 * i] == bs[i] / 16 && ds[2 * i + 1] == bs[i] % 16
  }

  lemma {:induction false} FromHexExactly(ds: seq<Digit>)
    ensures FromHex(ds).None? <==> |ds| % 2 == 1
    ensures FromHex(ds).Some? ==> Spells(ds, FromHex(ds).value)
  {
    if |ds| > 1 {
      FromHexExactly(ds[..|ds| - 2]);
    }
  }

  /** All zero digits are gone from the end, and nothing else. */
  ghost predicate StripsTo(ds: seq<Digit>, kept: seq<Digit>) {
    && kept <= ds && (forall i :: |kept| <= i < |ds| ==> ds[i] == 0)
    && (kept != [] ==> kept[|kept| - 1] != 0)
  }

  lemma {:induction false} StripIsExact(ds: seq<Digit>)
    ensures StripsTo(ds, RStrip(ds))
  {
    if ds != [] && ds[|ds| - 1] == 0 {
      StripIsExact(ds[..|ds| - 1]);
    }
  }

  // ---------- The dictionary ----------

  /** The fragment's offset, total length and digits; what is missing at its end reads as zero or nothing. */
  ghost predicate Says(f: seq<Digit>, offset: Byte, total: Byte, digits: seq<Digit>) {
    || f == [offset / 16, offset % 16, total / 16, total % 16] + digits
    || (f == [offset / 16, offset % 16] && total == 0 && digits == [])
    || (f == [] && offset == 0 && total == 0 && digits == [])
  }

  ghost predicate IsAt(f: seq<Digit>, offset: nat) {
    offset < 256 && exists total, digits :: Says(f, offset, total, digits)
  }

  ghost predicate HasTotal(f: seq<Digit>, total: nat) {
    total < 256 && exists offset, digits :: Says(f, offset, total, digits)
  }

  lemma HeaderExactly(f: seq<Digit>)
    ensures ByteAt(f, 0).None? || ByteAt(f, 2).None? <==> |f| == 1 || |f| == 3
    ensures |f| != 1 && |f| != 3 ==>
              && ByteAt(f, 0).value < 256 && ByteAt(f, 2).value < 256
              && Says(f, ByteAt(f, 0).value, ByteAt(f, 2).value, if |f| < 4 then [] else f[4..])
              && forall o: nat :: IsAt(f, o) ==> o == ByteAt(f, 0).value
  {
    if |f| >= 4 {
      assert f == f[..4] + f[4..];
    }
  }

  ghost predicate Records(f: seq<Digit>, offset: nat, p: Piece) {
    offset < 256 && p.total < 256 && Says(f, offset, p.total, p.digits)
  }

  /** The last fragment with this offset, if there is one, as an index. */
  ghost predicate LastAt(fragments: seq<seq<Digit>>, offset: nat, i: nat) {
    i < |fragments| && IsAt(fragments[i], offset) && forall j :: i < j < |fragments| ==> !IsAt(fragments[j], offset)
  }

  /** Each entry is the last fragment with its offset, and the length that counts is that of the last fragment. */
  ghost predicate Collected(fragments: seq<seq<Digit>>, ps: Pieces) {
    && (forall o :: o in ps.byOffset ==>
          exists i: nat :: LastAt(fragments, o, i) && Records(fragments[i], o, ps.byOffset[o]))
    && (forall i, o: nat :: 0 <= i < |fragments| && IsAt(fragments[i], o) ==> o in ps.byOffset)
    && (if fragments == [] then ps.lastTotal == 0 else HasTotal(fragments[|fragments| - 1], ps.lastTotal))
  }

  /** The dictionary is there exactly if every header is whole, and the later of two fragments at an offset wins. */
  lemma {:induction false} CollectExactly(fragments: seq<seq<Digit>>)
    ensures Collect(fragments).None? <==> exists f :: f in fragments && (|f| == 1 || |f| == 3)
    ensures Collect(fragments).Some? ==> Collected(fragments, Collect(fragments).value)
  {
    if fragments == [] {
    } else {
      hide Says, ByteAt, IsAt;
      var rest, f := fragments[..|fragments| - 1], fragments[|fragments| - 1];
      CollectExactly(rest);
      HeaderExactly(f);
      assert fragments == rest + [f];
      assert forall g :: g in fragments <==> g in rest || g == f;
      if Collect(fragments).Some? {
        CollectedSnoc(rest, f, Collect(rest).value, ByteAt(f, 0).value, ByteAt(f, 2).value,
                      if |f| < 4 then [] else f[4..]);
      }
    }
  }

  lemma CollectedSnoc(rest: seq<seq<Digit>>, f: seq<Digit>, ps: Pieces, offset: Byte, total: Byte,
        digits: seq<Digit>)
    requires Collected(rest, ps) && Says(f, offset, total, digits) && forall o: nat :: IsAt(f, o) ==> o == offset
    ensures Collected(rest + [f], Pieces(ps.byOffset[offset := Piece(total, digits)], total))
  {
    hide Says;
    assert IsAt(f, offset) && HasTotal(f, total);
    var all, ps' := rest + [f], ps.byOffset[offset := Piece(total, digits)];
    forall o | o in ps'
      ensures exists i: nat :: LastAt(all, o, i) && Records(all[i], o, ps'[o])
    {
      if o == offset {
        assert LastAt(all, o, |rest|);
      } else {
        var i: nat :| LastAt(rest, o, i) && Records(rest[i], o, ps.byOffset[o]);
        assert LastAt(all, o, i);
      }
    }
    forall i, o: nat | 0 <= i < |all| && IsAt(all[i], o) ensures o in ps' {
      if i < |rest| {
        assert IsAt(rest[i], o);
      }
    }
  }

  // ---------- The bytes ----------

  /** The digits that are decoded: all of them, or, for a piece that runs over the total length, the stripped ones. */
  ghost predicate Uses(offset: nat, p: Piece, digits: seq<Digit>) {
    if offset + |p.digits| / 2 - 1 <= p.total then digits == p.digits else StripsTo(p.digits, digits)
  }

  /** The piece agrees with the total length and does not run over it. */
  ghost predicate Fits(offset: nat, p: Piece, total: nat) {
    p.total == total && exists digits :: Uses(offset, p, digits) && offset + |digits| / 2 - 1 <= total
  }

  /** The pieces that count: those before the first one that does not fit. */
  ghost predicate Counts(ps: map<nat, Piece>, total: nat, offset: nat) {
    offset in ps && forall o :: o in ps && o <= offset ==> Fits(o, ps[o], total)
  }

  function Joined(parts: seq<seq<Digit>>): seq<Digit> {
    if parts == [] then [] else parts[0] + Joined(parts[1..])
  }

  /** The outcome when exactly these digits are decoded, piece by piece. */
  ghost predicate Decodes(parts: seq<seq<Digit>>, out: Outcome) {
    match out
    case Raised => exists i :: 0 <= i < |parts| && |parts[i]| % 2 == 1
    case Name(bytes) => (forall i :: 0 <= i < |parts| ==> |parts[i]| % 2 == 0) && Spells(Joined(parts), bytes)
  }

  lemma StripIsUnique(ds: seq<Digit>, a: seq<Digit>, b: seq<Digit>)
    requires StripsTo(ds, a) && StripsTo(ds, b)
    ensures a == b
  {
    assert a == ds[..|a|] && b == ds[..|b|];
  }

  /** What the loop does with one piece. */
  lemma PieceExactly(offset: nat, p: Piece, total: nat)
    ensures var digits := if Exceeds(offset, p.digits, p.total) then RStrip(p.digits) else p.digits;
            Uses(offset, p, digits) &&
                  (Fits(offset, p, total) <==> p.total == total && !Exceeds(offset, digits, p.total))
  {
    hide RStrip;
    StripIsExact(p.digits);
    if Exceeds(offset, p.digits, p.total) {
      forall ds | Uses(offset, p, ds) ensures ds == RStrip(p.digits) {
        hide StripsTo;
        StripIsUnique(p.digits, ds, RStrip(p.digits));
      }
    }
  }

  lemma SpellsAppend(ds: seq<Digit>, bs: seq<Byte>, ds': seq<Digit>, bs': seq<Byte>)
    requires Spells(ds, bs) && Spells(ds', bs')
    ensures Spells(ds + ds', bs + bs')
  {
    var all, alls := ds + ds', bs + bs';
    forall i | 0 <= i < |alls| ensures all[2 * i] == alls[i] / 16 && all[2 * i + 1] == alls[i] % 16 {
      if i >= |bs| {
        var k := i - |bs|;
        assert 2 * i == |ds| + 2 * k;
        assert all[2 * i] == ds'[2 * k] && all[2 * i + 1] == ds'[2 * k + 1];
      }
    }
  }

  lemma DecodesCons(ds: seq<Digit>, parts: seq<seq<Digit>>, out: Outcome)
    requires Decodes(parts, out)
    ensures Decodes([ds] + parts, match FromHex(ds) case None => Raised case Some(bs) => Prepend(bs, out))
  {
    hide FromHex, Spells;
    FromHexExactly(ds);
    var all := [ds] + parts;
    assert all[1..] == parts && all[0] == ds;
    assert forall i :: 0 <= i < |parts| ==> all[i + 1] == parts[i];
    if FromHex(ds).Some? && out.Name? {
      SpellsAppend(ds, FromHex(ds).value, Joined(parts), out.bytes);
    }
  }

  /** The loop over any offsets in order decodes those before the first piece that does not fit. */
  lemma {:induction false} AssembleExactly(ps: map<nat, Piece>, offsets: seq<nat>, total: nat)
    returns (parts: seq<seq<Digit>>)
    requires forall o :: o in offsets ==> o in ps
    ensures |parts| <= |offsets|
    ensures forall i :: 0 <= i < |parts| ==>
              Fits(offsets[i], ps[offsets[i]], total) && Uses(offsets[i], ps[offsets[i]], parts[i])
    ensures |parts| < |offsets| ==> !Fits(offsets[|parts|], ps[offsets[|parts|]], total)
    ensures Decodes(parts, Assemble(ps, offsets, total))
  {
    hide Decodes, Fits, Uses, FromHex, RStrip;
    parts := [];
    if offsets == [] {
      NothingDecodes();
    } else {
      var o, p := offsets[0], ps[offsets[0]];
      PieceExactly(o, p, total);
      if Fits(o, p, total) {
        var digits := if Exceeds(o, p.digits, p.total) then RStrip(p.digits) else p.digits;
        var rest := AssembleExactly(ps, offsets[1..], total);
        parts := [digits] + rest;
        DecodesCons(digits, rest, Assemble(ps, offsets[1..], total));
      } else {
        NothingDecodes();
      }
    }
  }

  lemma NothingDecodes()
    ensures Decodes([], Name([]))
  {
  }

  /** For any fragments the bytes are those of the pieces that count, in ascending order, and of no others. */
  lemma DefragmentedExactly(fragments: seq<seq<Digit>>)
    returns (ps: Pieces, offsets: seq<nat>, parts: seq<seq<Digit>>)
    ensures Defragmented(fragments).Raised? <==>
            || (exists f :: f in fragments && (|f| == 1 || |f| == 3))
            || (exists i :: 0 <= i < |parts| && |parts[i]| % 2 == 1)
    ensures (forall f :: f in fragments ==> |f| != 1 && |f| != 3) ==>
              && Collected(fragments, ps)
              && StrictlyAscending(offsets) && (forall o :: o in offsets <==> Counts(ps.byOffset, ps.lastTotal, o))
              && |parts| == |offsets|
              && (forall i :: 0 <= i < |parts| ==>
                    offsets[i] in ps.byOffset && Uses(offsets[i], ps.byOffset[offsets[i]], parts[i]))
              && (Defragmented(fragments).Name? ==> Spells(Joined(parts), Defragmented(fragments).bytes))
  {
    hide Collected, Uses, Fits, Counts, Spells, Joined, Assemble, Collect, Ascending;
    CollectExactly(fragments);
    ps, offsets, parts := Pieces(map[], 0), [], [];
    if Collect(fragments).Some? {
      ps := Collect(fragments).value;
      CollectKeys(fragments);
      var keys := SortedKeys(ps.byOffset.Keys);
      parts := AssembleExactly(ps.byOffset, keys, ps.lastTotal);
      offsets := keys[..|parts|];
      FittingPrefix(ps.byOffset, ps.lastTotal, keys, |parts|);
    }
  }

  lemma FittingPrefix(ps: map<nat, Piece>, total: nat, keys: seq<nat>, n: nat)
    requires StrictlyAscending(keys) && (forall o :: o in keys <==> o in ps) && n <= |keys|
    requires forall i :: 0 <= i < n ==> Fits(keys[i], ps[keys[i]], total)
    requires n < |keys| ==> !Fits(keys[n], ps[keys[n]], total)
    ensures StrictlyAscending(keys[..n]) && forall o :: o in keys[..n] <==> Counts(ps, total, o)
  {
    hide Fits;
    forall o ensures o in keys[..n] <==> Counts(ps, total, o) {
      if o in ps {
        var i :| 0 <= i < |keys| && keys[i] == o;
        if i < n {
          forall o' | o' in ps && o' <= o ensures Fits(o', ps[o'], total) {
            var j :| 0 <= j < |keys| && keys[j] == o';
          }
        } else {
          assert keys[n] <= o;
        }
      }
    }
  }

  /** A device renamed between two captures: the piece at 0 disagrees with the newer length, and nothing is stored. */
  lemma RenamedDeviceIsNameless(old14: seq<Digit>, new14: seq<Digit>)
    requires |old14| == |new14| == 28
    ensures Defragmented([[0, 0, 1, 4] + old14, [0, 14, 2, 8] + new14]) == Name([])
  {
    hide Spells, StripsTo, Uses, Collected, Defragmented, Joined;
    var fragments := [[0, 0, 1, 4] + old14, [0, 14, 2, 8] + new14];
    var ps, offsets, parts := DefragmentedExactly(fragments);
    TwoNames(fragments[0], fragments[1], old14, new14, ps);
    assert forall o :: !Counts(ps.byOffset, ps.lastTotal, o);
    HasMember(offsets);
    SpellsNothing(Defragmented(fragments).bytes);
  }

  lemma SpellsNothing(bs: seq<Byte>)
    ensures Spells(Joined([]), bs) ==> bs == []
  {
  }

  lemma TwoNames(f: seq<Digit>, g: seq<Digit>, old14: seq<Digit>, new14: seq<Digit>, ps: Pieces)
    requires f == [0, 0, 1, 4] + old14 && g == [0, 14, 2, 8] + new14
    requires Collected([f, g], ps)
    ensures ps.lastTotal == 40 && 0 in ps.byOffset && ps.byOffset[0].total == 20
  {
    assert Says(f, 0, 20, old14) && Says(g, 14, 40, new14);
    assert IsAt([f, g][0], 0);
    assert f[..4] == [0, 0, 1, 4] && g[..4] == [0, 14, 2, 8];
    assert g[1] == 14 && g[2] == 2 && g[3] == 8 && f[2] == 1 && f[3] == 4;
  }
}
