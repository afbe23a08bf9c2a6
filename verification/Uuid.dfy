/**
 UUIDs as strings: the short form written to BTIDES files, the expanded and dashed forms, and the comparison.

 Bluetooth Core Specification, Vol 3 Part B, section 2.5.1: a 16- or 32-bit UUID stands for the 128-bit UUID with
 those bits in front of the Bluetooth Base UUID 00000000-0000-1000-8000-00805F9B34FB.
 */
module Uuid {
  import opened Text

  const BASE_TAIL := "00001000800000805f9b34fb"
  const BASE_TAIL_DASHED := "-0000-1000-8000-00805f9b34fb"

  function RemoveDashes(s: string): string {
    if s == [] then []
    else
      var rest := RemoveDashes(s[..|s| - 1]);
      if s[|s| - 1] == '-' then rest else rest + [s[|s| - 1]]
  }

  predicate IsLowerHex(c: char) {
    '0' <= c <= '9' || 'a' <= c <= 'f'
  }

  predicate AllLowerHex(s: string) {
    forall i :: 0 <= i < |s| ==> IsLowerHex(s[i])
  }

  /** `re.match` of the pattern: it has to match at the start, and may leave something over. */
  predicate MatchesBase(s: string) {
    |s| >= 32 && s[..4] == "0000" && AllLowerHex(s[4..8]) && s[8..32] == BASE_TAIL
  }

  /** `convert_UUID128_to_UUID16_if_possible`. */
  function Convert(u: string): string {
    if |u| < 32 then u
    else
      var t := RemoveDashes(Lower(Strip(u)));
      if MatchesBase(t) then t[4..8] else t
  }

  /** `expand_UUID16_or_UUID32_to_UUID128`. */
  function Expand(u: string): string {
    if |u| == 4 then "0000" + u + BASE_TAIL_DASHED
    else if |u| == 8 then u + BASE_TAIL_DASHED
    else u
  }

  /** `add_dashes_to_UUID128`. */
  function AddDashes(u: string): string {
    if |u| < 32 || u[8] == '-' then u
    else u[..8] + "-" + u[8..12] + "-" + u[12..16] + "-" + u[16..20] + "-" + u[20..32]
  }

  /** `check_if_UUIDs_match`. */
  function Match(uuid1: string, uuid2: string): bool {
    var u1, u2 := Lower(uuid1), Lower(uuid2);
    if u1 == u2 then true
    else
      var short := |u2| == 4 || |u2| == 8;
      var v1, v2 := if short then Expand(u1) else u1, if short then Expand(u2) else u2;
      if v1 == v2 then true
      else v1 == if |v2| == 32 then AddDashes(v2) else v2
  }

  // ---------- What a UUID string denotes ----------

  predicate IsHexOrDash(c: char) {
    c == '-' || IsLowerHex(LowerChar(c))
  }

  predicate AllHexOrDash(s: string) {
    forall i :: 0 <= i < |s| ==> IsHexOrDash(s[i])
  }

  /** The lower-case digits of a string. */
  function Digits(s: string): string {
    RemoveDashes(Lower(s))
  }

  /** 16 or 32 bits, in either case. */
  predicate IsShort(u: string) {
    (|u| == 4 || |u| == 8) && AllLowerHex(Lower(u))
  }

  /** 32 hex digits in either case, with or without dashes. */
  predicate IsUuid128(u: string) {
    AllHexOrDash(u) && |Digits(u)| == 32
  }

  predicate IsUuid(u: string) {
    IsShort(u) || IsUuid128(u)
  }

  function HexValue(s: string): nat
    requires AllLowerHex(s)
  {
    if s == [] then 0 else 16 * HexValue(s[..|s| - 1]) + DigitValue(s[|s| - 1])
  }

  function ShortDigits(u: string): string
    requires |u| == 4 || |u| == 8
  {
    (if |u| == 4 then "0000" + u else u) + "00001000800000805f9b34fb"
  }

  /** All 32 digits of the 128-bit UUID. */
  function FullDigits(u: string): string
    requires IsUuid(u)
  {
    if IsShort(u) then ShortDigits(Lower(u)) else Digits(u)
  }

  /** The 128-bit number a UUID string stands for. */
  function Denotes(u: string): nat
    requires IsUuid(u)
  {
    FullDigitsAreHex(u);
    HexValue(FullDigits(u))
  }

  lemma {:induction false} RemoveDashesKeeps(s: string)
    ensures |RemoveDashes(s)| <= |s|
    ensures forall i :: 0 <= i < |RemoveDashes(s)| ==> RemoveDashes(s)[i] in s && RemoveDashes(s)[i] != '-'
  {
    if s == [] {
    } else {
      RemoveDashesKeeps(s[..|s| - 1]);
      assert forall c :: c in s[..|s| - 1] ==> c in s;
    }
  }

  lemma DigitsAreHex(u: string)
    requires AllHexOrDash(u)
    ensures AllLowerHex(Digits(u)) && |Digits(u)| <= |u|
  {
    RemoveDashesKeeps(Lower(u));
    forall i | 0 <= i < |Digits(u)| ensures IsLowerHex(Digits(u)[i]) {
      var j :| 0 <= j < |u| && Lower(u)[j] == Digits(u)[i];
      assert IsHexOrDash(u[j]);
    }
  }

  lemma FullDigitsAreHex(u: string)
    requires IsUuid(u)
    ensures AllLowerHex(FullDigits(u)) && |FullDigits(u)| == 32 && (IsShort(u) || |u| >= 32)
  {
    if IsShort(u) {
      BaseIsHex();
    } else {
      DigitsAreHex(u);
    }
  }

  lemma BaseIsHex()
    ensures AllLowerHex(BASE_TAIL) && |BASE_TAIL| == 24
  {
  }

  lemma {:induction false} HexValueInjective(s: string, t: string)
    requires AllLowerHex(s) && AllLowerHex(t) && |s| == |t|
    ensures HexValue(s) == HexValue(t) <==> s == t
  {
    if s == [] {
    } else {
      var a, b := s[|s| - 1], t[|t| - 1];
      HexValueInjective(s[..|s| - 1], t[..|t| - 1]);
      assert s == s[..|s| - 1] + [a] && t == t[..|t| - 1] + [b];
      assert DigitValue(a) == DigitValue(b) <==> a == b;
    }
  }

  lemma {:induction false} NothingToStrip(s: string)
    requires forall i :: 0 <= i < |s| ==> !IsSpace(s[i])
    ensures StripLeft(s) == s && StripRight(s) == s
  {
  }

  lemma HexDashHasNoSpace(u: string)
    requires AllHexOrDash(u)
    ensures forall i :: 0 <= i < |u| ==> !IsSpace(u[i])
  {
    forall i | 0 <= i < |u| ensures !IsSpace(u[i]) {
      assert IsHexOrDash(u[i]);
    }
  }

  /** On hex-and-dash strings the conversion depends on the digits alone. */
  lemma ConvertOfHex(u: string)
    requires AllHexOrDash(u) && |u| >= 32
    ensures Convert(u) == if MatchesBase(Digits(u)) then Digits(u)[4..8] else Digits(u)
  {
    HexDashHasNoSpace(u);
    NothingToStrip(u);
  }

  lemma BaseShape(d: string)
    requires |d| == 32
    ensures MatchesBase(d) <==> AllLowerHex(d[4..8]) && d == "0000" + d[4..8] + BASE_TAIL
  {
    if MatchesBase(d) {
      assert d == d[..4] + d[4..8] + d[8..32];
    }
    if d == "0000" + d[4..8] + BASE_TAIL {
      assert d[..4] == "0000" && d[8..32] == BASE_TAIL;
    }
  }

  /** Long, or a 16-bit UUID in lower case: what the conversion brings to one form. */
  predicate Settled(u: string) {
    |u| >= 32 || (|u| == 4 && AllLowerHex(u))
  }

  lemma ConvertByFullDigits(u: string)
    requires IsUuid(u)
    ensures Convert(u) == if !Settled(u) then u
                          else if MatchesBase(FullDigits(u)) then FullDigits(u)[4..8] else FullDigits(u)
  {
    FullDigitsAreHex(u);
    if |u| == 4 {
      var d := FullDigits(u);
      assert d[4..8] == Lower(u);
      if Settled(u) {
        LowerOfLower(u);
      }
      BaseShape(d);
    } else if |u| >= 32 {
      ConvertOfHex(u);
    }
  }

  /**
   Two UUIDs are written the same exactly when they denote the same 128-bit number and the conversion reaches both:
   32-bit UUIDs and short ones with upper-case digits stay as they are, so they only equal themselves.
   */
  lemma CanonicalExactly(u: string, v: string)
    requires IsUuid(u) && IsUuid(v)
    ensures Convert(u) == Convert(v) <==> u == v || (Denotes(u) == Denotes(v) && Settled(u) && Settled(v))
  {
    ConvertByFullDigits(u);
    ConvertByFullDigits(v);
    FullDigitsAreHex(u);
    FullDigitsAreHex(v);
    BaseShape(FullDigits(u));
    BaseShape(FullDigits(v));
    HexValueInjective(FullDigits(u), FullDigits(v));
  }

  /** An upper-case short UUID and its lower-case form are written differently, and so are a 32- and a 16-bit one. */
  lemma ShortFormsStay()
    ensures IsUuid("180F") && IsUuid("180f") && IsUuid("0000180f")
    ensures Denotes("180F") == Denotes("180f") == Denotes("0000180f")
    ensures Convert("180F") != Convert("180f") && Convert("0000180f") != Convert("180f")
  {
    assert Lower("180F") == "180f" && Lower("180f") == "180f" && Lower("0000180f") == "0000180f";
    assert ShortDigits("180f") == ShortDigits("0000180f");
    assert "180F"[3] != "180f"[3];
  }

  /** Converting twice is converting once, on every string of hex digits and dashes. */
  lemma ConvertIdempotent(u: string)
    requires AllHexOrDash(u)
    ensures Convert(Convert(u)) == Convert(u)
  {
    if |u| >= 32 {
      ConvertOfHex(u);
      DigitsAreHex(u);
      var d := Digits(u);
      if !MatchesBase(d) && |d| >= 32 {
        HexIsHexOrDash(d);
        ConvertOfHex(d);
        DigitsOfDigits(d);
      }
    }
  }

  lemma HexIsHexOrDash(d: string)
    requires AllLowerHex(d)
    ensures AllHexOrDash(d)
  {
    forall i | 0 <= i < |d| ensures IsHexOrDash(d[i]) {
      assert IsLowerHex(d[i]);
    }
  }

  lemma {:induction false} DigitsOfDigits(d: string)
    requires AllLowerHex(d)
    ensures Digits(d) == d && Lower(d) == d
  {
    LowerOfLower(d);
    NoDashes(d);
  }

  lemma LowerOfLower(d: string)
    requires AllLowerHex(d)
    ensures Lower(d) == d
  {
    forall i | 0 <= i < |d| ensures Lower(d)[i] == d[i] {
      assert IsLowerHex(d[i]);
    }
  }

  lemma {:induction false} NoDashes(d: string)
    requires AllLowerHex(d)
    ensures RemoveDashes(d) == d
  {
    if d == [] {
    } else {
      assert IsLowerHex(d[|d| - 1]);
      NoDashes(d[..|d| - 1]);
    }
  }

  // ---------- The forms convert into each other ----------

  lemma {:induction false} RemoveDashesAppend(s: string, t: string)
    ensures RemoveDashes(s + t) == RemoveDashes(s) + RemoveDashes(t)
  {
    if t == [] {
      assert s + t == s;
    } else {
      assert (s + t)[..|s + t| - 1] == s + t[..|t| - 1];
      RemoveDashesAppend(s, t[..|t| - 1]);
    }
  }

  /** Five groups of digits with dashes between them. */
  function Dashed(d: string): string
    requires |d| == 32
  {
    d[..8] + "-" + d[8..12] + "-" + d[12..16] + "-" + d[16..20] + "-" + d[20..32]
  }

  lemma DashedDigits(d: string)
    requires |d| == 32 && AllLowerHex(d)
    ensures |Dashed(d)| == 36 && AllHexOrDash(Dashed(d)) && Lower(Dashed(d)) == Dashed(d) && Digits(Dashed(d)) == d
  {
    var a, b, c, e, f := d[..8], d[8..12], d[12..16], d[16..20], d[20..32];
    NoDashes(a);
    NoDashes(b);
    NoDashes(c);
    NoDashes(e);
    NoDashes(f);
    assert RemoveDashes("-") == "" by { assert "-"[..0] == ""; }
    RemoveDashesAppend(a, "-");
    RemoveDashesAppend(a + "-", b);
    RemoveDashesAppend(a + "-" + b, "-");
    RemoveDashesAppend(a + "-" + b + "-", c);
    RemoveDashesAppend(a + "-" + b + "-" + c, "-");
    RemoveDashesAppend(a + "-" + b + "-" + c + "-", e);
    RemoveDashesAppend(a + "-" + b + "-" + c + "-" + e, "-");
    RemoveDashesAppend(a + "-" + b + "-" + c + "-" + e + "-", f);
    DashedChars(d);
    assert Lower(Dashed(d)) == Dashed(d);
    assert a + b + c + e + f == d;
  }

  lemma DashedChars(d: string)
    requires |d| == 32 && AllLowerHex(d)
    ensures forall i :: 0 <= i < |Dashed(d)| ==> IsLowerHex(Dashed(d)[i]) || Dashed(d)[i] == '-'
  {
  }

  lemma DashedInjective(d: string, e: string)
    requires |d| == 32 && |e| == 32 && AllLowerHex(d) && AllLowerHex(e)
    ensures Dashed(d) == Dashed(e) <==> d == e
  {
    DashedDigits(d);
    DashedDigits(e);
  }

  /** Dashing a plain UUID does not change what it is written as. */
  lemma DashingIsUndone(d: string)
    requires |d| == 32 && AllLowerHex(d)
    ensures Convert(AddDashes(d)) == Convert(d)
  {
    assert AddDashes(d) == Dashed(d) by { assert IsLowerHex(d[8]); }
    DashedDigits(d);
    HexIsHexOrDash(d);
    DigitsOfDigits(d);
    ConvertOfHex(d);
    ConvertOfHex(Dashed(d));
  }

  lemma TailGroups()
    ensures |BASE_TAIL| == 24
    ensures BASE_TAIL[0..4] == "0000" && BASE_TAIL[4..8] == "1000" && BASE_TAIL[8..12] == "8000"
    ensures BASE_TAIL[12..24] == "00805f9b34fb"
    ensures BASE_TAIL_DASHED == "-" + "0000" + "-" + "1000" + "-" + "8000" + "-" + "00805f9b34fb"
  {
  }

  lemma FrontDashed(front: string, tail: string)
    requires |front| == 8 && |tail| == 24
    ensures Dashed(front + tail) ==
            front + ("-" + tail[0..4] + "-" + tail[4..8] + "-" + tail[8..12] + "-" + tail[12..24])
  {
    var d := front + tail;
    assert d[..8] == front && d[8..12] == tail[0..4] && d[12..16] == tail[4..8];
    assert d[16..20] == tail[8..12] && d[20..32] == tail[12..24];
  }

  lemma ExpandIsDashed(u: string)
    requires (|u| == 4 || |u| == 8) && AllLowerHex(u)
    ensures |ShortDigits(u)| == 32 && AllLowerHex(ShortDigits(u)) && Expand(u) == Dashed(ShortDigits(u))
  {
    BaseIsHex();
    TailGroups();
    assert ShortDigits(u) == (if |u| == 4 then "0000" + u else u) + BASE_TAIL;
    hide Dashed, BASE_TAIL, BASE_TAIL_DASHED;
    FrontDashed(if |u| == 4 then "0000" + u else u, BASE_TAIL);
  }

  /** Expanding a short UUID keeps its value; converting a 16-bit one back gives it again. */
  lemma ExpansionIsUndone(u: string)
    requires IsShort(u) && AllLowerHex(u)
    ensures IsUuid128(Expand(u)) && Denotes(Expand(u)) == Denotes(u)
    ensures |u| == 4 ==> Convert(Expand(u)) == u
  {
    LowerOfLower(u);
    ExpandIsDashed(u);
    var d := ShortDigits(u);
    DashedDigits(d);
    ConvertOfHex(Expand(u));
    BaseShape(d);
    assert |u| == 4 ==> d[4..8] == u;
  }

  // ---------- When two UUIDs match ----------

  /** A UUID of 16, 32 or 128 bits in any case, the last with dashes in their places or with none. */
  predicate InForm(u: string) {
    IsUuid(u) && (IsUuid128(u) ==> Lower(u) == Digits(u) || Lower(u) == Dashed(Digits(u)))
  }

  /** The comparison brings these forms together; other pairs of equal UUIDs it misses. */
  predicate FormsMeet(u: string, v: string) {
    if |v| == 36 then |u| == 36 else if |v| == 32 then |u| >= 32 else |u| != 32
  }

  /** In any case, UUIDs match exactly when they denote the same value and their forms meet. */
  lemma MatchExactly(u: string, v: string)
    requires InForm(u) && InForm(v)
    ensures Match(u, v) <==> Denotes(u) == Denotes(v) && FormsMeet(u, v)
  {
    FormsOf(u);
    FormsOf(v);
    DashedInjective(FullDigits(u), FullDigits(v));
    HexValueInjective(FullDigits(u), FullDigits(v));
    assert |Lower(u)| == |u| && |Lower(v)| == |v|;
    hide HexValue, Dashed, Lower, Expand, AddDashes, FullDigits, InForm, AllLowerHex, IsUuid, ShortDigits;
  }

  lemma FormsOf(u: string)
    requires InForm(u)
    ensures AllLowerHex(FullDigits(u)) && |FullDigits(u)| == 32 && |Dashed(FullDigits(u))| == 36
    ensures |u| == 4 || |u| == 8 || |u| == 32 || |u| == 36
    ensures |u| == 4 || |u| == 8 ==> FullDigits(u) == ShortDigits(Lower(u)) && Expand(Lower(u)) == Dashed(FullDigits(u))
    ensures |u| == 32 ==> Lower(u) == FullDigits(u) && AddDashes(Lower(u)) == Dashed(FullDigits(u))
    ensures |u| == 36 ==> Lower(u) == Dashed(FullDigits(u))
    ensures |u| >= 32 ==> Expand(Lower(u)) == Lower(u)
  {
    FullDigitsAreHex(u);
    DashedDigits(FullDigits(u));
    if IsShort(u) {
      ExpandIsDashed(Lower(u));
    } else if |u| == 32 {
      assert IsLowerHex(FullDigits(u)[8]);
    }
  }
}
