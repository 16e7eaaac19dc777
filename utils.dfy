/**
 * The adapter setup steps: the enumeration of setup steps that the adapter
 * setup is given, in declaration order.
 */
module SetupSteps {
  import Wrappers

  /** One adapter setup step, in declaration order (`allCases`). */
  datatype SetupStep = ATD | ATZ | ATRV | ATL0 | ATE0 | ATH1 | ATAT1 | ATSTFF | ATDPN | AT0902

  /** The steps in declaration order (`allCases`). */
  const AllCases: seq<SetupStep> := [ATD, ATZ, ATRV, ATL0, ATE0, ATH1, ATAT1, ATSTFF, ATDPN, AT0902]

  /** The position of a step in `allCases`. */
  function Position(s: SetupStep): (i: nat)
    ensures i < |AllCases| && AllCases[i] == s
  {
    match s
    case ATD => 0
    case ATZ => 1
    case ATRV => 2
    case ATL0 => 3
    case ATE0 => 4
    case ATH1 => 5
    case ATAT1 => 6
    case ATSTFF => 7
    case ATDPN => 8
    case AT0902 => 9
  }

  /**
   * The raw value of a step: its case name, which starts with "AT" and is
   * 3 to 6 characters long.
   */
  function RawValue(s: SetupStep): (r: string)
    ensures 3 <= |r| <= 6 && r[..2] == "AT"
  {
    match s
    case ATD => "ATD"
    case ATZ => "ATZ"
    case ATRV => "ATRV"
    case ATL0 => "ATL0"
    case ATE0 => "ATE0"
    case ATH1 => "ATH1"
    case ATAT1 => "ATAT1"
    case ATSTFF => "ATSTFF"
    case ATDPN => "ATDPN"
    case AT0902 => "AT0902"
  }

  /** `allCases` lists every step exactly once, in declaration order. */
  lemma AllCasesEnumerates()
    ensures |AllCases| == 10
    ensures forall s :: s in AllCases
    ensures forall i :: 0 <= i < |AllCases| ==> Position(AllCases[i]) == i
    ensures forall i, j :: 0 <= i < j < |AllCases| ==> AllCases[i] != AllCases[j]
  {
    forall s ensures s in AllCases {
      assert AllCases[Position(s)] == s;
    }
    forall i | 0 <= i < |AllCases| ensures Position(AllCases[i]) == i {
      assert i == 0 || i == 1 || i == 2 || i == 3 || i == 4 || i == 5 || i == 6 || i == 7 || i == 8 || i == 9;
    }
  }

  /** Distinct steps have distinct raw values. */
  lemma RawValueInjective()
    ensures forall s, t :: RawValue(s) == RawValue(t) ==> s == t
  {
  }

  /** Searching `allCases` by raw value finds exactly the step with that raw value. */
  lemma FindByRawValueInAllCases(r: string)
    ensures forall t :: Wrappers.FindByRawValue(AllCases, RawValue, r) == Wrappers.Some(t) <==> RawValue(t) == r
  {
    RawValueInjective();
    forall t | RawValue(t) == r
      ensures Wrappers.FindByRawValue(AllCases, RawValue, r) == Wrappers.Some(t)
    {
      assert AllCases[Position(t)] == t;
    }
  }

  /** `init?(rawValue:)`: the step whose raw value is `r`, if there is one. */
  function FromRawValue(r: string): (s: Wrappers.Option<SetupStep>)
    ensures forall t :: s == Wrappers.Some(t) <==> RawValue(t) == r
  {
    FindByRawValueInAllCases(r);
    Wrappers.FindByRawValue(AllCases, RawValue, r)
  }

  /** `Identifiable.id`: the raw value, which identifies the step. */
  function Id(s: SetupStep): (r: string)
    ensures r == RawValue(s)
    ensures FromRawValue(r) == Wrappers.Some(s)
  {
    RawValue(s)
  }
}

/**
 * The protocol registry: the ELM327 protocol numbers 0 to C (the `h` of the
 * adapter's `AT SP h` select directive) and NONE, with their descriptions,
 * CAN identifier widths, fallback order and select commands.
 */
module Protocols {
  import Wrappers

  datatype Protocol =
    | AUTO
    | Protocol1 | Protocol2 | Protocol3 | Protocol4 | Protocol5 | Protocol6
    | Protocol7 | Protocol8 | Protocol9 | ProtocolA | ProtocolB | ProtocolC
    | NONE

  /** `asArray`: every case, in declaration order. */
  const AllCases: seq<Protocol> :=
    [AUTO, Protocol1, Protocol2, Protocol3, Protocol4, Protocol5, Protocol6,
     Protocol7, Protocol8, Protocol9, ProtocolA, ProtocolB, ProtocolC, NONE]

  /** The hexadecimal digits 0 to C, the ELM327 protocol numbers. */
  const ProtocolDigits: string := "0123456789ABC"

  /** The position of a case in `asArray`; for AUTO to C it is the ELM327 protocol number. */
  function Index(p: Protocol): (i: nat)
    ensures i < |AllCases| && AllCases[i] == p
    ensures i == 13 <==> p == NONE
  {
    match p
    case AUTO => 0
    case Protocol1 => 1
    case Protocol2 => 2
    case Protocol3 => 3
    case Protocol4 => 4
    case Protocol5 => 5
    case Protocol6 => 6
    case Protocol7 => 7
    case Protocol8 => 8
    case Protocol9 => 9
    case ProtocolA => 10
    case ProtocolB => 11
    case ProtocolC => 12
    case NONE => 13
  }

  /**
   * The raw value: the protocol number as one hexadecimal digit for AUTO
   * to C, and "NONE" for NONE.
   */
  function RawValue(p: Protocol): (r: string)
    ensures p != NONE ==> r == [ProtocolDigits[Index(p)]]
    ensures p == NONE ==> r == "NONE"
  {
    match p
    case AUTO => "0"
    case Protocol1 => "1"
    case Protocol2 => "2"
    case Protocol3 => "3"
    case Protocol4 => "4"
    case Protocol5 => "5"
    case Protocol6 => "6"
    case Protocol7 => "7"
    case Protocol8 => "8"
    case Protocol9 => "9"
    case ProtocolA => "A"
    case ProtocolB => "B"
    case ProtocolC => "C"
    case NONE => "NONE"
  }

  /**
   * The human-readable name; it starts with the raw value and ": " for every
   * case but NONE. Each text is written as the concatenation of its pieces
   * (the same string) so that the lemmas below can point at the bit width.
   */
  function Description(p: Protocol): (d: string)
    ensures p != NONE ==> |d| > 3 && d[..3] == RawValue(p) + ": "
    ensures p == NONE ==> d == "None"
  {
    match p
    case AUTO => "0: " + "Automatic"
    case Protocol1 => "1: " + "SAE J1850 PWM (41.6 kbaud)"
    case Protocol2 => "2: " + "SAE J1850 VPW (10.4 kbaud)"
    case Protocol3 => "3: " + "ISO 9141-2 (5 baud init, 10.4 kbaud)"
    case Protocol4 => "4: " + "ISO 14230-4 KWP (5 baud init, 10.4 kbaud)"
    case Protocol5 => "5: " + "ISO 14230-4 KWP (fast init, 10.4 kbaud)"
    case Protocol6 => "6: " + "ISO 15765-4 CAN (" + "11 bit ID" + ",500 Kbaud)"
    case Protocol7 => "7: " + "ISO 15765-4 CAN (" + "29 bit ID" + ",500 Kbaud)"
    case Protocol8 => "8: " + "ISO 15765-4 CAN (" + "11 bit ID" + ",250 Kbaud)"
    case Protocol9 => "9: " + "ISO 15765-4 CAN (" + "29 bit ID" + ",250 Kbaud)"
    case ProtocolA => "A: " + "SAE J1939 CAN (" + "11* bit ID" + ", 250* kbaud)"
    case ProtocolB => "B: " + "USER1 CAN (" + "11* bit ID" + ", 125* kbaud)"
    case ProtocolC => "C: " + "USER1 CAN (" + "11* bit ID" + ", 50* kbaud)"
    case NONE => "None"
  }

  /** The CAN identifier width: 11 bits for 6, 8 and B, 29 bits for every other case. */
  function IdBits(p: Protocol): (bits: int)
    ensures bits == 11 <==> p == Protocol6 || p == Protocol8 || p == ProtocolB
    ensures bits != 11 ==> bits == 29
  {
    match p
    case Protocol6 | Protocol8 | ProtocolB => 11
    case _ => 29
  }

  /** `t` occurs in `s`. */
  ghost predicate Mentions(s: string, t: string)
  {
    exists before, after :: s == before + t + after
  }

  /**
   * For the four ISO 15765-4 CAN protocols the identifier width named in the
   * description is the one `IdBits` gives.
   */
  lemma IdBitsAgreeWithCanDescriptions()
    ensures IdBits(Protocol6) == 11 && Mentions(Description(Protocol6), "11 bit ID")
    ensures IdBits(Protocol7) == 29 && Mentions(Description(Protocol7), "29 bit ID")
    ensures IdBits(Protocol8) == 11 && Mentions(Description(Protocol8), "11 bit ID")
    ensures IdBits(Protocol9) == 29 && Mentions(Description(Protocol9), "29 bit ID")
  {
    assert Description(Protocol6) == ("6: " + "ISO 15765-4 CAN (") + "11 bit ID" + ",500 Kbaud)";
    assert Description(Protocol7) == ("7: " + "ISO 15765-4 CAN (") + "29 bit ID" + ",500 Kbaud)";
    assert Description(Protocol8) == ("8: " + "ISO 15765-4 CAN (") + "11 bit ID" + ",250 Kbaud)";
    assert Description(Protocol9) == ("9: " + "ISO 15765-4 CAN (") + "29 bit ID" + ",250 Kbaud)";
  }

  /**
   * For A and C the description names an 11-bit (user-adjustable) identifier
   * while `IdBits` gives 29; the model keeps the value the code returns.
   */
  lemma IdBitsDifferFromDescriptionForAAndC()
    ensures IdBits(ProtocolA) == 29 && Mentions(Description(ProtocolA), "11* bit ID")
    ensures IdBits(ProtocolC) == 29 && Mentions(Description(ProtocolC), "11* bit ID")
  {
    assert Description(ProtocolA) == ("A: " + "SAE J1939 CAN (") + "11* bit ID" + ", 250* kbaud)";
    assert Description(ProtocolC) == ("C: " + "USER1 CAN (") + "11* bit ID" + ", 50* kbaud)";
  }

  /**
   * A rank for the fallback order: 0 for NONE, and one more than the
   * protocol number for AUTO to C.
   */
  function Rank(p: Protocol): (r: nat)
    ensures r <= 13
    ensures r == 0 <==> p == NONE
  {
    if p == NONE then 0 else Index(p) + 1
  }

  /**
   * The dictionary literal of `nextProtocol`: its keys are exactly the
   * protocols numbered 1 to C (so neither AUTO nor NONE), and each falls
   * back to the one numbered below it.
   */
  function FallbackMap(): (m: map<Protocol, Protocol>)
    ensures forall p :: p in m <==> 1 <= Index(p) <= 12
    ensures forall p :: p in m ==> Index(m[p]) + 1 == Index(p)
  {
    map[ProtocolC := ProtocolB,
        ProtocolB := ProtocolA,
        ProtocolA := Protocol9,
        Protocol9 := Protocol8,
        Protocol8 := Protocol7,
        Protocol7 := Protocol6,
        Protocol6 := Protocol5,
        Protocol5 := Protocol4,
        Protocol4 := Protocol3,
        Protocol3 := Protocol2,
        Protocol2 := Protocol1,
        Protocol1 := AUTO]
  }

  /**
   * `nextProtocol`: the protocol to try after `p`. Every case but NONE steps
   * exactly one rank down, so C, B, ..., 1 go to the case before them in
   * `asArray`, AUTO goes to NONE, and NONE (absent from the map) stays NONE.
   */
  function NextProtocol(p: Protocol): (q: Protocol)
    ensures p != NONE ==> Rank(q) + 1 == Rank(p)
    ensures p == NONE ==> q == NONE
    ensures q == NONE <==> p == AUTO || p == NONE
    ensures p != AUTO && p != NONE ==> q == AllCases[Index(p) - 1]
  {
    if p in FallbackMap() then FallbackMap()[p] else NONE
  }

  /** `nextProtocol` applied `n` times. */
  function Iterate(p: Protocol, n: nat): (q: Protocol)
    decreases n
  {
    if n == 0 then p else Iterate(NextProtocol(p), n - 1)
  }

  /** Each application of `nextProtocol` lowers the rank by one until NONE is reached. */
  lemma {:induction false} IterateRank(p: Protocol, n: nat)
    ensures Rank(Iterate(p, n)) == if n <= Rank(p) then Rank(p) - n else 0
    decreases n
  {
    if n > 0 {
      IterateRank(NextProtocol(p), n - 1);
    }
  }

  /** From any case the fallback chain reaches NONE after exactly `Rank(p)` steps, so within 13. */
  lemma FallbackTerminates(p: Protocol)
    ensures Iterate(p, Rank(p)) == NONE
    ensures Iterate(p, 13) == NONE
    ensures forall i :: 0 <= i < Rank(p) ==> Iterate(p, i) != NONE
  {
    IterateRank(p, Rank(p));
    IterateRank(p, 13);
    forall i | 0 <= i < Rank(p) ensures Iterate(p, i) != NONE {
      IterateRank(p, i);
    }
  }

  /** The fallback chain has no cycle: no case is met twice before NONE. */
  lemma FallbackNeverRevisits(p: Protocol, i: nat, j: nat)
    requires i < j
    requires Iterate(p, i) != NONE
    ensures Iterate(p, i) != Iterate(p, j)
  {
    IterateRank(p, i);
    IterateRank(p, j);
  }

  /** The protocols tried, in order, when falling back from `p` until NONE. */
  function FallbackChain(p: Protocol): (chain: seq<Protocol>)
    ensures |chain| == Rank(p)
    ensures forall i :: 0 <= i < |chain| ==> Rank(chain[i]) == Rank(p) - i
    decreases Rank(p)
  {
    if p == NONE then [] else [p] + FallbackChain(NextProtocol(p))
  }

  /** The chain is exactly the iterates of `nextProtocol` before NONE. */
  lemma {:induction false} FallbackChainIsIterates(p: Protocol, i: nat)
    requires i < |FallbackChain(p)|
    ensures FallbackChain(p)[i] == Iterate(p, i)
    decreases i
  {
    if i > 0 {
      FallbackChainIsIterates(NextProtocol(p), i - 1);
    }
  }

  /**
   * Falling back from C tries every protocol from C down to AUTO once, that
   * is `asArray` without NONE, backwards.
   */
  lemma FallbackChainFromC()
    ensures FallbackChain(ProtocolC) ==
      [ProtocolC, ProtocolB, ProtocolA, Protocol9, Protocol8, Protocol7,
       Protocol6, Protocol5, Protocol4, Protocol3, Protocol2, Protocol1, AUTO]
    ensures forall i :: 0 <= i < 13 ==> FallbackChain(ProtocolC)[i] == AllCases[12 - i]
  {
    var chain := FallbackChain(ProtocolC);
    forall i | 0 <= i < 13 ensures chain[i] == AllCases[12 - i] {
      assert Rank(chain[i]) == 13 - i;
      assert Index(chain[i]) == 12 - i;
    }
    assert chain == [AllCases[12], AllCases[11], AllCases[10], AllCases[9], AllCases[8], AllCases[7],
                     AllCases[6], AllCases[5], AllCases[4], AllCases[3], AllCases[2], AllCases[1], AllCases[0]];
  }

  /**
   * `cmd`: the adapter's select directive `AT SP h`, written without the
   * space, with the protocol's raw value as `h`; NONE selects nothing.
   */
  function SelectCommand(p: Protocol): (c: string)
    ensures p != NONE ==> c == "ATSP" + RawValue(p)
    ensures p == NONE ==> c == ""
  {
    match p
    case AUTO => "ATSP0"
    case Protocol1 => "ATSP1"
    case Protocol2 => "ATSP2"
    case Protocol3 => "ATSP3"
    case Protocol4 => "ATSP4"
    case Protocol5 => "ATSP5"
    case Protocol6 => "ATSP6"
    case Protocol7 => "ATSP7"
    case Protocol8 => "ATSP8"
    case Protocol9 => "ATSP9"
    case ProtocolA => "ATSPA"
    case ProtocolB => "ATSPB"
    case ProtocolC => "ATSPC"
    case NONE => ""
  }

  /** `asArray` holds each of the 14 cases exactly once, at its index. */
  lemma AllCasesEnumerates()
    ensures |AllCases| == 14
    ensures forall p :: p in AllCases
    ensures forall i :: 0 <= i < |AllCases| ==> Index(AllCases[i]) == i
    ensures forall i, j :: 0 <= i < j < |AllCases| ==> AllCases[i] != AllCases[j]
  {
    forall p ensures p in AllCases {
      assert AllCases[Index(p)] == p;
    }
    forall i | 0 <= i < |AllCases| ensures Index(AllCases[i]) == i {
      assert i == 0 || i == 1 || i == 2 || i == 3 || i == 4 || i == 5 || i == 6 ||
             i == 7 || i == 8 || i == 9 || i == 10 || i == 11 || i == 12 || i == 13;
    }
  }

  /** Raw values are pairwise distinct. */
  lemma RawValueInjective()
    ensures forall p, q :: RawValue(p) == RawValue(q) ==> p == q
  {
    forall p, q | RawValue(p) == RawValue(q) ensures p == q {
      if p != NONE && q != NONE {
        assert ProtocolDigits[Index(p)] == RawValue(p)[0];
        assert forall i, j :: 0 <= i < j < |ProtocolDigits| ==> ProtocolDigits[i] != ProtocolDigits[j];
      }
    }
  }

  /** Distinct protocols have distinct select commands. */
  lemma SelectCommandInjective(p: Protocol, q: Protocol)
    requires SelectCommand(p) == SelectCommand(q)
    ensures p == q
  {
    RawValueInjective();
    if p != NONE && q != NONE {
      assert RawValue(p) == SelectCommand(p)[4..];
      assert RawValue(q) == SelectCommand(q)[4..];
    }
  }

  /** Decoding a raw value (`init?(rawValue:)`, used by `Codable`): the case with that raw value. */
  function FromRawValue(s: string): (r: Wrappers.Option<Protocol>)
    ensures forall p :: r == Wrappers.Some(p) <==> RawValue(p) == s
  {
    FindByRawValueInAllCases(s);
    Wrappers.FindByRawValue(AllCases, RawValue, s)
  }

  /** Searching `asArray` by raw value finds exactly the case with that raw value. */
  lemma FindByRawValueInAllCases(s: string)
    ensures forall p :: Wrappers.FindByRawValue(AllCases, RawValue, s) == Wrappers.Some(p) <==> RawValue(p) == s
  {
    RawValueInjective();
    forall p | RawValue(p) == s
      ensures Wrappers.FindByRawValue(AllCases, RawValue, s) == Wrappers.Some(p)
    {
      assert AllCases[Index(p)] == p;
    }
  }

  /** The `Codable` round trip: decoding the encoded raw value gives the case back. */
  lemma RawValueRoundTrip(p: Protocol)
    ensures FromRawValue(RawValue(p)) == Wrappers.Some(p)
  {
  }

  /** Only the 14 raw values decode; any other string is rejected. */
  lemma FromRawValueRejects(s: string)
    requires forall p :: RawValue(p) != s
    ensures FromRawValue(s).None?
  {
  }
}
