/**
 Offline reassembly of a Bluetooth Classic name from LMP_NAME_RES packets (`parse_LMPArray`).

 Bluetooth Core Specification, Vol 2 Part C, section 4.3.5: a name of 1 to 248 bytes travels as fragments of
 14 bytes, each with its offset and the length of the whole name, and the last one is padded with zeros.
 Packets arrive as hex digits, and the code strips digits, not bytes.
 */
module LmpName {
  import opened Bytes
  import opened Wrappers

  /** What the import makes of the fragments: some bytes, or an exception from `bytes.fromhex`. */
  datatype Outcome = Name(bytes: seq<Byte>) | Raised

  /** One entry of `tmp_frag_dict`. */
  datatype Piece = Piece(total: nat, digits: seq<Digit>)

  datatype Pieces = Pieces(byOffset: map<nat, Piece>, lastTotal: nat)

  // ---------- Hex digits ----------

  function HexByte(b: Byte): seq<Digit> {
    [b / 16, b % 16]
  }

  function ToHex(bs: seq<Byte>): seq<Digit> {
    if bs == [] then [] else ToHex(bs[..|bs| - 1]) + HexByte(bs[|bs| - 1])
  }

  /** `bytes.fromhex`: an odd number of digits raises. */
  function FromHex(ds: seq<Digit>): Option<seq<Byte>> {
    if ds == [] then Some([])
    else if |ds| == 1 then None
    else
      match FromHex(ds[..|ds| - 2])
      case None => None
      case Some(bs) => Some(bs + [ByteOf(ds[|ds| - 2], ds[|ds| - 1])])
  }

  /** `rstrip("00")`: drops every trailing zero digit, however many. */
  function RStrip(ds: seq<Digit>): seq<Digit> {
    if ds != [] && ds[|ds| - 1] == 0 then RStrip(ds[..|ds| - 1]) else ds
  }

  function Slice(ds: seq<Digit>, lo: nat, hi: nat): seq<Digit>
    requires lo <= hi
  {
    if |ds| <= lo then [] else if |ds| < hi then ds[lo..] else ds[lo..hi]
  }

  /** The number in one hex-encoded byte; no digits at all read as 0. */
  function ByteAt(ds: seq<Digit>, lo: nat): Option<nat> {
    var two := Slice(ds, lo, lo + 2);
    if |two| == 1 then None else if two == [] then Some(0) else Some(ByteOf(two[0], two[1]))
  }

  // ---------- Reassembly ----------

  function Collect(fragments: seq<seq<Digit>>): Option<Pieces> {
    if fragments == [] then Some(Pieces(map[], 0))
    else
      var f := fragments[|fragments| - 1];
      match Collect(fragments[..|fragments| - 1])
      case None => None
      case Some(ps) =>
        if ByteAt(f, 0).None? || ByteAt(f, 2).None? then None
        else
          var total := ByteAt(f, 2).value;
          Some(Pieces(ps.byOffset[ByteAt(f, 0).value := Piece(total, if |f| < 4 then [] else f[4..])], total))
  }

  /** The members of a set of numbers below n, in ascending order. */
  function Ascending(s: set<nat>, n: nat): seq<nat> {
    if n == 0 then [] else Ascending(s, n - 1) + if n - 1 in s then [n - 1] else []
  }

  predicate Exceeds(offset: nat, digits: seq<Digit>, total: nat) {
    offset + |digits| / 2 - 1 > total
  }

  /** Appends the pieces in order of offset and stops quietly at the first one that does not fit. */
  function Assemble(ps: map<nat, Piece>, offsets: seq<nat>, total: nat): Outcome
    requires forall o :: o in offsets ==> o in ps
  {
    if offsets == [] then Name([])
    else
      var o, p := offsets[0], ps[offsets[0]];
      var digits := if Exceeds(o, p.digits, p.total) then RStrip(p.digits) else p.digits;
      if p.total != total || Exceeds(o, digits, p.total) then Name([])
      else
        match FromHex(digits)
        case None => Raised
        case Some(bs) =>
          Prepend(bs, Assemble(ps, offsets[1..], total))
  }

  predicate StrictlyAscending(xs: seq<nat>) {
    forall i, j :: 0 <= i < j < |xs| ==> xs[i] < xs[j]
  }

  lemma {:induction false} AscendingSorts(s: set<nat>, n: nat)
    ensures StrictlyAscending(Ascending(s, n))
    ensures forall x :: x in Ascending(s, n) <==> x in s && x < n
  {
    if n == 0 {
    } else {
      AscendingSorts(s, n - 1);
      var xs := Ascending(s, n - 1);
      assert forall i :: 0 <= i < |xs| ==> xs[i] in xs;
    }
  }

  lemma {:induction false} CollectKeys(fragments: seq<seq<Digit>>)
    ensures Collect(fragments).Some? ==> forall o :: o in Collect(fragments).value.byOffset ==> o < 256
  {
    if fragments == [] {
    } else {
      CollectKeys(fragments[..|fragments| - 1]);
    }
  }

  /** `sorted(tmp_frag_dict.keys())`: every key once, in ascending order; offsets are bytes. */
  function SortedKeys(keys: set<nat>): (xs: seq<nat>)
    requires forall o :: o in keys ==> o < 256
    ensures StrictlyAscending(xs) && forall o :: o in xs <==> o in keys
  {
    AscendingSorts(keys, 256);
    Ascending(keys, 256)
  }

  function Defragmented(fragments: seq<seq<Digit>>): Outcome {
    match Collect(fragments)
    case None => Raised
    case Some(ps) =>
      CollectKeys(fragments);
      Assemble(ps.byOffset, SortedKeys(ps.byOffset.Keys), ps.lastTotal)
  }

  /** The reassembly loops of the import, with their dictionary, their sort and their early exits. */
  method Defragment(fragments: seq<seq<Digit>>) returns (outcome: Outcome)
    ensures outcome == Defragmented(fragments)
  {
    var collected := CollectFragments(fragments);
    if collected.None? {
      return Raised;
    }
    var tmpFragDict := collected.value.byOffset;
    CollectKeys(fragments);
    outcome := AppendInOrder(tmpFragDict, SortedKeys(tmpFragDict.Keys), collected.value.lastTotal);
  }

  method CollectFragments(fragments: seq<seq<Digit>>) returns (pieces: Option<Pieces>)
    ensures pieces == Collect(fragments)
  {
    var tmpFragDict: map<nat, Piece>, tmpNameLength := map[], 0;
    for i := 0 to |fragments|
      invariant Collect(fragments[..i]) == Some(Pieces(tmpFragDict, tmpNameLength))
    {
      assert fragments[..i + 1][..i] == fragments[..i];
      var fragment := fragments[i];
      var nameOffset, nameTotalLength := ByteAt(fragment, 0), ByteAt(fragment, 2);
      if nameOffset.None? || nameTotalLength.None? {
        CollectStopped(fragments, i + 1);
        return None;
      }
      var nameFragment := if |fragment| < 4 then [] else fragment[4..];
      tmpFragDict := tmpFragDict[nameOffset.value := Piece(nameTotalLength.value, nameFragment)];
      tmpNameLength := nameTotalLength.value;
    }
    assert fragments[..|fragments|] == fragments;
    pieces := Some(Pieces(tmpFragDict, tmpNameLength));
  }

  /** The outcome once `bytes` is already there and `rest` is what the remaining pieces give. */
  function Prepend(bytes: seq<Byte>, rest: Outcome): Outcome {
    match rest
    case Raised => Raised
    case Name(more) => Name(bytes + more)
  }

  method AppendInOrder(ps: map<nat, Piece>, offsets: seq<nat>, total: nat) returns (outcome: Outcome)
    requires forall o :: o in offsets ==> o in ps
    ensures outcome == Assemble(ps, offsets, total)
  {
    hide FromHex, RStrip;
    var bytes: seq<Byte> := [];
    for i := 0 to |offsets|
      invariant Assemble(ps, offsets, total) == Prepend(bytes, Assemble(ps, offsets[i..], total))
    {
      assert offsets[i..][1..] == offsets[i + 1..];
      ghost var rest := Assemble(ps, offsets[i + 1..], total);
      var offset, piece := offsets[i], ps[offsets[i]];
      var nameFragment := piece.digits;
      if piece.total != total {
        return Name(bytes);
      }
      if Exceeds(offset, nameFragment, piece.total) {
        nameFragment := RStrip(nameFragment);
        if Exceeds(offset, nameFragment, piece.total) {
          return Name(bytes);
        }
      }
      var decoded := FromHex(nameFragment);
      if decoded.None? {
        return Raised;
      }
      assert Assemble(ps, offsets[i..], total) == Prepend(decoded.value, rest);
      assert rest.Name? ==> bytes + (decoded.value + rest.bytes) == (bytes + decoded.value) + rest.bytes;
      bytes := bytes + decoded.value;
    }
    outcome := Name(bytes);
  }

  lemma {:induction false} CollectStopped(fragments: seq<seq<Digit>>, n: nat)
    requires n <= |fragments| && Collect(fragments[..n]).None?
    ensures Collect(fragments).None?
    decreases |fragments|
  {
    if n == |fragments| {
      assert fragments[..n] == fragments;
    } else {
      assert fragments[..|fragments| - 1][..n] == fragments[..n];
      CollectStopped(fragments[..|fragments| - 1], n);
    }
  }

  // ---------- Fragmentation by the remote device ----------

  function PieceCount(n: nat): nat {
    (n + 13) / 14
  }

  /** Fragments hold 14 bytes each. */
  function OffsetOf(i: nat): nat {
    14 * i
  }

  function Zeros(n: nat): seq<Byte> {
    seq(n, _ => 0)
  }

  /** The 14 bytes at an offset of the name, zeros past its end. */
  function Padded(name: seq<Byte>, offset: nat): seq<Byte>
    requires offset <= |name|
  {
    if |name| - offset >= 14 then name[offset..offset + 14]
    else name[offset..] + Zeros(14 - (|name| - offset))
  }

  function FragmentAt(name: seq<Byte>, i: nat): seq<Digit>
    requires OffsetOf(i) < |name| < 256
  {
    HexByte(OffsetOf(i)) + HexByte(|name|) + ToHex(Padded(name, OffsetOf(i)))
  }

  /** Every fragment arrives at least once, in any order, and nothing else arrives. */
  ghost predicate Delivers(name: seq<Byte>, fragments: seq<seq<Digit>>)
    requires |name| < 256
  {
    && (forall i :: 0 <= i < PieceCount(|name|) ==> FragmentAt(name, i) in fragments)
    && OnlyFragments(name, fragments)
  }

  lemma {:induction false} HexRoundTrip(bs: seq<Byte>)
    ensures |ToHex(bs)| == 2 * |bs| && FromHex(ToHex(bs)) == Some(bs)
  {
    if bs == [] {
    } else {
      var init, b := bs[..|bs| - 1], bs[|bs| - 1];
      HexRoundTrip(init);
      var ds := ToHex(bs);
      assert ds[..|ds| - 2] == ToHex(init) && ds[|ds| - 2..] == HexByte(b);
      assert ds[|ds| - 2] == b / 16 && ds[|ds| - 1] == b % 16;
      assert bs == init + [b];
    }
  }

  lemma FragmentParses(name: seq<Byte>, i: nat)
    requires OffsetOf(i) < |name| < 256
    ensures var f := FragmentAt(name, i);
            && |f| >= 4 && f[4..] == ToHex(Padded(name, OffsetOf(i)))
            && ByteAt(f, 0) == Some(OffsetOf(i)) && ByteAt(f, 2) == Some(|name|)
  {
  }

  /** The dictionary holds exactly the delivered pieces, each under its own offset. */
  ghost predicate Holds(name: seq<Byte>, ps: map<nat, Piece>, delivered: set<nat>) {
    && (forall o :: o in ps ==> exists i :: i in delivered && o == OffsetOf(i))
    && (forall i :: i in delivered ==>
          OffsetOf(i) < |name| && OffsetOf(i) in ps
          && ps[OffsetOf(i)] == Piece(|name|, ToHex(Padded(name, OffsetOf(i)))))
  }

  ghost function Delivered(name: seq<Byte>, fragments: seq<seq<Digit>>): set<nat>
    requires |name| < 256
  {
    set i | 0 <= i < PieceCount(|name|) && FragmentAt(name, i) in fragments
  }

  ghost predicate OnlyFragments(name: seq<Byte>, fragments: seq<seq<Digit>>)
    requires |name| < 256
  {
    forall f :: f in fragments ==> exists i :: 0 <= i < PieceCount(|name|) && f == FragmentAt(name, i)
  }

  lemma CollectStep(name: seq<Byte>, rest: seq<seq<Digit>>, j: nat)
    requires OffsetOf(j) < |name| < 256
    requires Collect(rest).Some?
    ensures Collect(rest + [FragmentAt(name, j)]) ==
            Some(Pieces(Collect(rest).value.byOffset[OffsetOf(j) := Piece(|name|, ToHex(Padded(name, OffsetOf(j))))],
                  |name|))
  {
    var f := FragmentAt(name, j);
    FragmentParses(name, j);
    assert (rest + [f])[..|rest|] == rest && (rest + [f])[|rest|] == f;
  }

  lemma {:induction false} CollectDelivered(name: seq<Byte>, fragments: seq<seq<Digit>>)
    requires |name| < 256 && OnlyFragments(name, fragments)
    ensures Collect(fragments).Some?
    ensures fragments != [] ==> Collect(fragments).value.lastTotal == |name|
    ensures Holds(name, Collect(fragments).value.byOffset, Delivered(name, fragments))
  {
    if fragments == [] {
      assert Delivered(name, fragments) == {};
    } else {
      var rest, f := fragments[..|fragments| - 1], fragments[|fragments| - 1];
      assert fragments == rest + [f];
      OnlyFragmentsBefore(name, rest, f);
      CollectDelivered(name, rest);
      var j :| 0 <= j < PieceCount(|name|) && f == FragmentAt(name, j);
      CollectStep(name, rest, j);
      DeliveredSnoc(name, rest, j);
      HoldsStep(name, Collect(rest).value.byOffset, Delivered(name, rest), j);
    }
  }

  lemma OnlyFragmentsBefore(name: seq<Byte>, rest: seq<seq<Digit>>, f: seq<Digit>)
    requires |name| < 256 && OnlyFragments(name, rest + [f])
    ensures OnlyFragments(name, rest)
    ensures exists j :: 0 <= j < PieceCount(|name|) && f == FragmentAt(name, j)
  {
    assert f in rest + [f];
    assert forall g :: g in rest ==> g in rest + [f];
  }

  lemma DeliveredSnoc(name: seq<Byte>, rest: seq<seq<Digit>>, j: nat)
    requires |name| < 256 && j < PieceCount(|name|)
    ensures Delivered(name, rest + [FragmentAt(name, j)]) == Delivered(name, rest) + {j}
  {
    FragmentParses(name, j);
    forall i | 0 <= i < PieceCount(|name|) && FragmentAt(name, i) == FragmentAt(name, j) ensures i == j {
      FragmentParses(name, i);
    }
  }

  lemma HoldsStep(name: seq<Byte>, ps: map<nat, Piece>, delivered: set<nat>, j: nat)
    requires Holds(name, ps, delivered) && OffsetOf(j) < |name|
    ensures Holds(name, ps[OffsetOf(j) := Piece(|name|, ToHex(Padded(name, OffsetOf(j))))], delivered + {j})
  {
    var ps' := ps[OffsetOf(j) := Piece(|name|, ToHex(Padded(name, OffsetOf(j))))];
    forall o | o in ps' ensures exists i :: i in delivered + {j} && o == OffsetOf(i) {
      if o == OffsetOf(j) {
        assert j in delivered + {j};
      } else {
        var i :| i in delivered && o == OffsetOf(i);
        assert i in delivered + {j};
      }
    }
  }

  function Offsets(from: nat, count: nat): seq<nat>
    decreases count
  {
    if count == 0 then [] else [OffsetOf(from)] + Offsets(from + 1, count - 1)
  }

  lemma {:induction false} OffsetsAt(from: nat, count: nat)
    ensures |Offsets(from, count)| == count
    ensures forall k :: 0 <= k < count ==> Offsets(from, count)[k] == OffsetOf(from + k)
    decreases count
  {
    if count > 0 {
      OffsetsAt(from + 1, count - 1);
    }
  }

  lemma HasMember(xs: seq<nat>)
    ensures xs != [] ==> exists x :: x in xs
  {
    if xs != [] {
      assert xs[0] in xs;
    }
  }

  /** Two ascending lists with the same members are the same list. */
  lemma {:induction false} AscendingIsUnique(xs: seq<nat>, ys: seq<nat>)
    requires StrictlyAscending(xs) && StrictlyAscending(ys)
    requires forall x :: x in xs <==> x in ys
    ensures xs == ys
  {
    HasMember(xs);
    HasMember(ys);
    if xs != [] {
      assert xs[0] in ys && ys != [] && ys[0] in xs;
      var i :| 0 <= i < |ys| && ys[i] == xs[0];
      var j :| 0 <= j < |xs| && xs[j] == ys[0];
      assert xs[0] == ys[0];
      forall x ensures x in xs[1..] <==> x in ys[1..] {
        if x in xs[1..] {
          var k :| 1 <= k < |xs| && xs[k] == x;
          assert x in ys && x > ys[0];
        }
        if x in ys[1..] {
          var k :| 1 <= k < |ys| && ys[k] == x;
          assert x in xs && x > xs[0];
        }
      }
      AscendingIsUnique(xs[1..], ys[1..]);
    }
  }

  lemma SortedOffsets(n: nat, keys: set<nat>)
    requires n < 256
    requires forall o :: o in keys ==> o % 14 == 0 && o / 14 < PieceCount(n)
    requires forall i :: 0 <= i < PieceCount(n) ==> OffsetOf(i) in keys
    ensures Ascending(keys, 256) == Offsets(0, PieceCount(n))
  {
    var m := PieceCount(n);
    AscendingSorts(keys, 256);
    OffsetsAt(0, m);
    var os := Offsets(0, m);
    forall o ensures o in Ascending(keys, 256) <==> o in os {
      if o in os {
        var k :| 0 <= k < |os| && os[k] == o;
        assert o == OffsetOf(k) && o / 14 == k;
      }
      if o in Ascending(keys, 256) {
        assert os[o / 14] == OffsetOf(o / 14) == o;
      }
    }
    AscendingIsUnique(Ascending(keys, 256), os);
  }

  // ---------- What comes out ----------

  function TrimZeros(bs: seq<Byte>): seq<Byte> {
    if bs != [] && bs[|bs| - 1] == 0 then TrimZeros(bs[..|bs| - 1]) else bs
  }

  /** The last piece, once its padding is stripped digit by digit. */
  function Stripped(tail: seq<Byte>): Outcome {
    var bs := TrimZeros(tail);
    if bs != [] && bs[|bs| - 1] % 16 == 0 then Raised else Name(bs)
  }

  /** The reassembled name, for every name: exact, one zero too long, cut, or an exception. */
  function Expected(name: seq<Byte>): Outcome
    requires name != []
  {
    var last := OffsetOf(PieceCount(|name|) - 1);
    var padding := OffsetOf(PieceCount(|name|)) - |name|;
    if padding == 0 then Name(name)
    else if padding == 1 then Name(name + [0])
    else Prepend(name[..last], Stripped(name[last..]))
  }

  lemma RStripSnoc(ds: seq<Digit>, d: Digit)
    ensures RStrip(ds + [d]) == if d == 0 then RStrip(ds) else ds + [d]
  {
    assert (ds + [d])[..|ds|] == ds;
  }

  lemma ToHexSnoc(init: seq<Byte>, b: Byte)
    ensures ToHex(init + [b]) == ToHex(init) + [b / 16] + [b % 16]
  {
    assert (init + [b])[..|init|] == init;
  }

  /** Stripping the digits of one more byte. */
  lemma StripByte(init: seq<Byte>, b: Byte)
    ensures b % 16 != 0 ==> RStrip(ToHex(init + [b])) == ToHex(init + [b])
    ensures b % 16 == 0 && b != 0 ==> RStrip(ToHex(init + [b])) == ToHex(init) + [b / 16]
    ensures b == 0 ==> RStrip(ToHex(init + [b])) == RStrip(ToHex(init))
  {
    hide RStrip, ToHex;
    ToHexSnoc(init, b);
    RStripSnoc(ToHex(init) + [b / 16], b % 16);
    RStripSnoc(ToHex(init), b / 16);
    assert b == 16 * (b / 16) + b % 16;
  }

  lemma {:induction false} StripTail(bs: seq<Byte>)
    ensures FromHex(RStrip(ToHex(bs))) ==
            (match Stripped(bs) case Raised => None case Name(out) => Some(out))
    ensures |RStrip(ToHex(bs))| <= 2 * |TrimZeros(bs)|
  {
    if bs == [] {
    } else {
      hide ToHex, RStrip, FromHex;
      var init, b := bs[..|bs| - 1], bs[|bs| - 1];
      assert bs == init + [b];
      if b == 0 {
        StripByte(init, b);
        StripTail(init);
        assert Stripped(bs) == Stripped(init);
      } else {
        StripLastByte(init, b);
        assert TrimZeros(bs) == bs;
      }
    }
  }

  lemma StripLastByte(init: seq<Byte>, b: Byte)
    requires b != 0
    ensures FromHex(RStrip(ToHex(init + [b]))) == if b % 16 == 0 then None else Some(init + [b])
    ensures |RStrip(ToHex(init + [b]))| <= 2 * |init + [b]|
  {
    StripByte(init, b);
    HexRoundTrip(init + [b]);
    HexRoundTrip(init);
    hide ToHex, RStrip, FromHex;
    if b % 16 == 0 {
      OddDigits(ToHex(init) + [b / 16]);
    }
  }

  lemma {:induction false} OddDigits(ds: seq<Digit>)
    requires |ds| % 2 == 1
    ensures FromHex(ds) == None
  {
    if |ds| > 1 {
      OddDigits(ds[..|ds| - 2]);
    }
  }

  lemma {:induction false} PaddingStrips(bs: seq<Byte>, n: nat)
    ensures TrimZeros(bs + Zeros(n)) == TrimZeros(bs)
  {
    if n == 0 {
      assert bs + Zeros(0) == bs;
    } else {
      var padded := bs + Zeros(n);
      assert padded[..|padded| - 1] == bs + Zeros(n - 1);
      PaddingStrips(bs, n - 1);
    }
  }

  ghost predicate Complete(name: seq<Byte>, ps: map<nat, Piece>)
    requires |name| < 256
  {
    forall i :: 0 <= i < PieceCount(|name|) ==>
                  OffsetOf(i) in ps && ps[OffsetOf(i)] == Piece(|name|, ToHex(Padded(name, OffsetOf(i))))
  }

  lemma {:induction false} AssembleFrom(name: seq<Byte>, ps: map<nat, Piece>, from: nat)
    requires 0 < |name| < 256 && from < PieceCount(|name|) && Complete(name, ps)
    requires forall o :: o in Offsets(from, PieceCount(|name|) - from) ==> o in ps
    ensures Prepend(name[..OffsetOf(from)], Assemble(ps, Offsets(from, PieceCount(|name|) - from), |name|)) ==
                Expected(name)
    decreases PieceCount(|name|) - from
  {
    hide ToHex, Padded, Assemble, Expected;
    var m := PieceCount(|name|);
    var os, rest := Offsets(from, m - from), Offsets(from + 1, m - from - 1);
    assert os == [OffsetOf(from)] + rest && os[1..] == rest;
    assert forall o :: o in rest ==> o in os;
    if from + 1 < m {
      AssembleFrom(name, ps, from + 1);
      MiddlePiece(name, ps, from, rest);
    } else {
      assert os == [OffsetOf(from)];
      LastPiece(name, ps, from);
    }
  }

  /** A piece that fits is put in front of what the others give. */
  lemma PieceFits(ps: map<nat, Piece>, o: nat, here: seq<Byte>, rest: seq<nat>, total: nat)
    requires o in ps && ps[o] == Piece(total, ToHex(here)) && forall x :: x in rest ==> x in ps
    requires |ToHex(here)| == 2 * |here| && FromHex(ToHex(here)) == Some(here) && o + |here| - 1 <= total
    ensures forall x :: x in [o] + rest ==> x in ps
    ensures Assemble(ps, [o] + rest, total) == Prepend(here, Assemble(ps, rest, total))
  {
    hide ToHex, RStrip, FromHex;
    assert ([o] + rest)[1..] == rest;
  }

  lemma MiddlePiece(name: seq<Byte>, ps: map<nat, Piece>, from: nat, rest: seq<nat>)
    requires 0 < |name| < 256 && from + 1 < PieceCount(|name|) && Complete(name, ps)
    requires forall o :: o in rest ==> o in ps
    ensures OffsetOf(from + 1) <= |name|
    ensures forall o :: o in [OffsetOf(from)] + rest ==> o in ps
    ensures Prepend(name[..OffsetOf(from)], Assemble(ps, [OffsetOf(from)] + rest, |name|)) ==
            Prepend(name[..OffsetOf(from + 1)], Assemble(ps, rest, |name|))
  {
    hide ToHex, RStrip, FromHex;
    var o, next := OffsetOf(from), OffsetOf(from + 1);
    var here := name[o..next];
    HexRoundTrip(here);
    assert ps[o] == Piece(|name|, ToHex(here));
    var tail := Assemble(ps, rest, |name|);
    PieceFits(ps, o, here, rest, |name|);
    assert name[..o] + here == name[..next];
    if tail.Name? {
      assert name[..o] + (here + tail.bytes) == name[..next] + tail.bytes;
    }
  }

  lemma LastPiece(name: seq<Byte>, ps: map<nat, Piece>, from: nat)
    requires 0 < |name| < 256 && from + 1 == PieceCount(|name|)
    requires OffsetOf(from) in ps
    requires ps[OffsetOf(from)] == Piece(|name|, ToHex(Padded(name, OffsetOf(from))))
    ensures Prepend(name[..OffsetOf(from)], Assemble(ps, [OffsetOf(from)], |name|)) == Expected(name)
  {
    var o := OffsetOf(from);
    var tail, padded := name[o..], Padded(name, o);
    var padding := 14 - |tail|;
    HexRoundTrip(padded);
    assert Assemble(ps, [], |name|) == Name([]);
    assert [o][1..] == [];
    assert name[..o] + tail == name;
    if padding == 0 {
      assert padded == tail && tail + [] == tail;
    } else if padding == 1 {
      assert padded == tail + [0];
      assert name[..o] + (padded + []) == name + [0];
    } else {
      assert padded == tail + Zeros(padding);
      PaddingStrips(tail, padding);
      StripTail(padded);
      assert Stripped(padded) == Stripped(tail);
      TrimShortens(tail);
      if Stripped(tail).Name? {
        assert Stripped(tail).bytes + [] == Stripped(tail).bytes;
      }
    }
  }

  lemma {:induction false} TrimShortens(tail: seq<Byte>)
    ensures |TrimZeros(tail)| <= |tail|
  {
    if tail != [] && tail[|tail| - 1] == 0 {
      TrimShortens(tail[..|tail| - 1]);
    }
  }

  lemma AllDelivered(name: seq<Byte>, fragments: seq<seq<Digit>>)
    requires 0 < |name| < 256 && Delivers(name, fragments)
    ensures fragments != [] && Collect(fragments).Some?
    ensures Collect(fragments).value.lastTotal == |name| && Complete(name, Collect(fragments).value.byOffset)
    ensures Ascending(Collect(fragments).value.byOffset.Keys, 256) == Offsets(0, PieceCount(|name|))
  {
    hide ToHex, Padded, FragmentAt, Collect, Ascending;
    CollectDelivered(name, fragments);
    assert FragmentAt(name, 0) in fragments;
    var keys := Collect(fragments).value.byOffset.Keys;
    forall i | 0 <= i < PieceCount(|name|) ensures OffsetOf(i) in keys {
      assert i in Delivered(name, fragments);
    }
    SortedOffsets(|name|, keys);
  }

  /** Reassembly of a delivered name in closed form, for every order and number of repeats. */
  lemma Reassembly(name: seq<Byte>, fragments: seq<seq<Digit>>)
    requires 0 < |name| < 256 && Delivers(name, fragments)
    ensures Defragmented(fragments) == Expected(name)
  {
    hide ToHex, Padded, FragmentAt, Collect, Ascending, Assemble, Expected;
    AllDelivered(name, fragments);
    var ps := Collect(fragments).value.byOffset;
    AscendingSorts(ps.Keys, 256);
    AssembleFrom(name, ps, 0);
    PrependNothing(Assemble(ps, Offsets(0, PieceCount(|name|)), |name|), name[..0]);
  }

  lemma PrependNothing(out: Outcome, nothing: seq<Byte>)
    requires nothing == []
    ensures Prepend(nothing, out) == out
  {
    if out.Name? {
      assert nothing + out.bytes == out.bytes;
    }
  }

  lemma LastOffset(n: nat)
    requires n > 0
    ensures OffsetOf(PieceCount(n) - 1) < n <= OffsetOf(PieceCount(n)) == OffsetOf(PieceCount(n) - 1) + 14
    ensures OffsetOf(PieceCount(n)) - n == 0 <==> n % 14 == 0
    ensures OffsetOf(PieceCount(n)) - n == 1 <==> n % 14 == 13
  {
  }

  lemma PrependInjective(front: seq<Byte>, back: seq<Byte>, back': seq<Byte>)
    requires front + back == front + back'
    ensures back == back'
  {
    assert back == (front + back)[|front|..];
    assert back' == (front + back')[|front|..];
  }

  /** The round trip holds exactly for whole last fragments and for last bytes with a non-zero low digit. */
  lemma RoundTripExactly(name: seq<Byte>, fragments: seq<seq<Digit>>)
    requires 0 < |name| < 256 && Delivers(name, fragments)
    ensures Defragmented(fragments) == Name(name) <==>
            |name| % 14 == 0 || (|name| % 14 != 13 && name[|name| - 1] % 16 != 0)
    ensures |name| % 14 == 13 ==> Defragmented(fragments) == Name(name + [0])
    ensures (|name| % 14 != 0 && |name| % 14 != 13 && name[|name| - 1] % 16 == 0 && name[|name| - 1] != 0) ==>
              Defragmented(fragments) == Raised
  {
    Reassembly(name, fragments);
    LastOffset(|name|);
    var last := OffsetOf(PieceCount(|name|) - 1);
    var tail := name[last..];
    assert name[..last] + tail == name;
    assert tail[|tail| - 1] == name[|name| - 1];
    if tail[|tail| - 1] == 0 {
      TrimShortens(tail[..|tail| - 1]);
      assert |TrimZeros(tail)| < |tail|;
    }
    if |name| % 14 != 0 && |name| % 14 != 13 {
      assert Expected(name) == Prepend(name[..last], Stripped(tail));
      if Expected(name) == Name(name) {
        PrependInjective(name[..last], Stripped(tail).bytes, tail);
      }
    }
  }
}
