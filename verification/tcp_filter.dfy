/** TcpFilter: the list of address patterns that decides whether a peer may
    connect.  A pattern is an action character ('+' accept, '-' reject,
    '?' query), an optional numeric address and an optional prefix length;
    an empty address matches every peer.  Masks follow section 3.1 of
    RFC 4632 (IPv4) and section 2.3 of RFC 4291 (IPv6).

    Name resolution (getaddrinfo with AI_NUMERICHOST) and numeric
    formatting (getnameinfo with NI_NUMERICHOST) are foreign calls and are
    parameters here; addresses arrive already parsed. */
module TcpFilter {
  import opened Outcome
  import opened Text
  import Wire
  import Input

  datatype Action = Accept | Reject | Query

  /** An IPv6 address or mask: sixteen bytes in network order. */
  type Bytes16 = s: seq<Wire.Byte> | |s| == 16 witness [0, 0, 0, 0, 0, 0, 0, 0, 0, 0, 0, 0, 0, 0, 0, 0]

  /** An IPv4 address is one 32-bit word; its byte order does not matter
      to a bitwise comparison.  `Unspec` is AF_UNSPEC, the family of the
      match-anything pattern; `OtherFamily` is any other socket family (a
      Unix-domain peer, say). */
  datatype Address = Unspec | V4(word: Input.U32) | V6(bytes: Bytes16) | OtherFamily

  datatype Mask = NoMask | Mask4(word: Input.U32) | Mask6(bytes: Bytes16)

  datatype Pattern = Pattern(address: Address, prefix: nat, mask: Mask, action: Action)

  // ---------------------------------------------------------------------
  // Bits

  function Pow2(n: nat): (r: nat)
    ensures r >= 1
  {
    if n == 0 then 1 else 2 * Pow2(n - 1)
  }

  lemma {:induction false} Pow2Add(a: nat, b: nat)
    ensures Pow2(a + b) == Pow2(a) * Pow2(b)
    decreases a
  {
    if a > 0 {
      Pow2Add(a - 1, b);
      assert Pow2(a + b) == 2 * Pow2(a - 1 + b);
    }
  }

  lemma Pow2Mono(a: nat, b: nat)
    requires a <= b
    ensures Pow2(a) <= Pow2(b)
  {
    Pow2Add(a, b - a);
    assert Pow2(b) == Pow2(a) * Pow2(b - a);
  }

  /** A value shifted right by `s` bits. */
  function HighBits(a: nat, s: nat): nat {
    if s == 0 then a else HighBits(a / 2, s - 1)
  }

  /** A value with its low `s` bits cleared. */
  function ClearLow(a: nat, s: nat): nat {
    if s == 0 then a else 2 * ClearLow(a / 2, s - 1)
  }

  /** The `w`-bit word whose top `w - s` bits are set. */
  function HighMask(w: nat, s: nat): (m: nat)
    requires s <= w
    ensures m < Pow2(w)
  {
    Pow2Mono(s, w);
    Pow2(w) - Pow2(s)
  }

  lemma HighMaskHalf(w: nat, s: nat)
    requires 0 < s <= w
    ensures HighMask(w, s) / 2 == HighMask(w - 1, s - 1) && HighMask(w, s) % 2 == 0
  {
  }

  /** The high mask really is `w - s` ones followed by `s` zeros. */
  lemma {:induction false} HighMaskBits(w: nat, s: nat)
    requires s <= w
    ensures HighBits(HighMask(w, s), s) == Pow2(w - s) - 1
    ensures ClearLow(HighMask(w, s), s) == HighMask(w, s)
    decreases s
  {
    if s > 0 {
      HighMaskHalf(w, s);
      HighMaskBits(w - 1, s - 1);
    }
  }

  /** Bitwise and of two non-negative integers, one bit at a time. */
  function And(a: nat, b: nat): (r: nat)
    ensures r <= a && r <= b
    decreases a
  {
    if a == 0 || b == 0 then 0
    else 2 * And(a / 2, b / 2) + (if a % 2 == 1 && b % 2 == 1 then 1 else 0)
  }

  /** And with all `w` low bits set keeps a `w`-bit value. */
  lemma {:induction false} AndOnes(a: nat, w: nat)
    requires a < Pow2(w)
    ensures And(a, Pow2(w) - 1) == a
    decreases w
  {
    if a > 0 {
      assert w > 0;
      assert (Pow2(w) - 1) / 2 == Pow2(w - 1) - 1 && (Pow2(w) - 1) % 2 == 1;
      AndOnes(a / 2, w - 1);
    }
  }

  lemma ClearAll(a: nat, w: nat)
    requires a < Pow2(w)
    ensures ClearLow(a, w) == 0
    decreases w
  {
  }

  /** And with a high mask clears the low bits, which is what comparing
      addresses under a prefix mask needs. */
  lemma {:induction false} AndHighMask(a: nat, w: nat, s: nat)
    requires s <= w && a < Pow2(w)
    ensures And(a, HighMask(w, s)) == ClearLow(a, s)
    decreases s
  {
    if s == 0 {
      AndOnes(a, w);
    } else if a == 0 {
      ClearAll(0, s);
    } else if s == w {
      ClearAll(a, w);
    } else {
      HighMaskHalf(w, s);
      AndHighMask(a / 2, w - 1, s - 1);
    }
  }

  // ---------------------------------------------------------------------
  // Masks

  lemma Pow2Of32()
    ensures Pow2(32) == 0x1_0000_0000 && Pow2(8) == 0x100
  {
    assert Pow2(8) == 0x100;
    Pow2Add(8, 8);
    Pow2Add(16, 16);
  }

  /** The IPv4 mask: `prefix` leading one bits of 32. */
  function MaskWord(prefix: nat): (m: Input.U32)
    requires prefix <= 32
  {
    Pow2Of32();
    HighMask(32, 32 - prefix)
  }

  /** The mask has exactly `prefix` leading ones and nothing below them. */
  lemma LeadingOnes(prefix: nat)
    requires prefix <= 32
    ensures HighBits(MaskWord(prefix), 32 - prefix) == Pow2(prefix) - 1
    ensures ClearLow(MaskWord(prefix), 32 - prefix) == MaskWord(prefix)
  {
    HighMaskBits(32, 32 - prefix);
  }

  /** The loop of parsePattern that sets one bit per prefix position.
      `1 << (31 - i)` is an int shifted into the sign bit when i is 0; the
      sign extension into unsigned long is cut off again by htonl, so the
      word below is what reaches the pattern. */
  method ComputeMask4(prefix: nat) returns (mask: Input.U32)
    requires prefix <= 32
    ensures mask == MaskWord(prefix)
  {
    var m := 0;
    var i := 0;
    while i < prefix
      invariant 0 <= i <= prefix
      invariant m == Pow2(32) - Pow2(32 - i)
    {
      assert Pow2(32 - i) == 2 * Pow2(31 - i);
      m := m + Pow2(31 - i);
      i := i + 1;
    }
    Pow2Of32();
    assert m == HighMask(32, 32 - prefix);
    mask := m;
  }

  /** How many bits of byte `n` a prefix covers. */
  function Covered(prefix: nat, n: nat): (k: nat)
    ensures k <= 8
  {
    if prefix >= 8 * (n + 1) then 8 else if prefix > 8 * n then prefix - 8 * n else 0
  }

  /** Byte `n` of the IPv6 mask: the covered bits set from the top. */
  function MaskByte(prefix: nat, n: nat): (b: Wire.Byte)
  {
    Pow2Of32();
    HighMask(8, 8 - Covered(prefix, n))
  }

  /** Shifting 0xff left inside a byte leaves the high mask. */
  lemma ShiftedFFIsMask(s: nat)
    requires s <= 8
    ensures (0xff * Pow2(s)) % 0x100 == HighMask(8, s)
  {
    Pow2Of32();
    Pow2Mono(s, 8);
    var p := Pow2(s);
    assert 0xff * p == (p - 1) * 0x100 + (0x100 - p);
    WholeBytes(p - 1, 0x100 - p);
  }

  lemma WholeBytes(q: int, r: int)
    requires 0 <= r < 0x100
    ensures (q * 0x100 + r) % 0x100 == r
  {
  }

  /** `(0xff << s) & 0xff` in unsigned arithmetic, for shifts up to 8. */
  function ShiftedFF(s: nat): (b: Wire.Byte)
    requires s <= 8
    ensures b == HighMask(8, s)
  {
    ShiftedFFIsMask(s);
    (0xff * Pow2(s)) % 0x100
  }

  /** The IPv6 mask: 0xff bytes before the prefix boundary, one partial
      byte whose top bits are the rest of the prefix, then zero bytes. */
  lemma MaskByteShape(prefix: nat, n: nat)
    ensures 8 * (n + 1) <= prefix ==> MaskByte(prefix, n) == 0xff
    ensures prefix <= 8 * n ==> MaskByte(prefix, n) == 0
    ensures 8 * n < prefix < 8 * (n + 1) ==>
              HighBits(MaskByte(prefix, n), 8 - (prefix - 8 * n)) == Pow2(prefix - 8 * n) - 1
              && ClearLow(MaskByte(prefix, n), 8 - (prefix - 8 * n)) == MaskByte(prefix, n)
  {
    Pow2Of32();
    HighMaskBits(8, 8 - Covered(prefix, n));
  }

  /** The IPv6 loop of parsePattern: full bytes, then the partial byte,
      then stop; the bytes after it keep the zero of the memset. */
  method ComputeMask6(prefix: nat) returns (mask: Bytes16)
    ensures forall n :: 0 <= n < 16 ==> mask[n] == MaskByte(prefix, n)
  {
    var m: seq<Wire.Byte> := [0, 0, 0, 0, 0, 0, 0, 0, 0, 0, 0, 0, 0, 0, 0, 0];
    var n := 0;
    while n < 16
      invariant 0 <= n <= 16 && |m| == 16
      invariant prefix >= 8 * n
      invariant forall j :: 0 <= j < n ==> m[j] == 0xff
      invariant forall j :: n <= j < 16 ==> m[j] == 0
    {
      var bits := (n + 1) * 8;
      if prefix > bits {
        m := m[n := 0xff];
        n := n + 1;
      } else {
        m := m[n := ShiftedFF(bits - prefix)];
        break;
      }
    }
    mask := m;
  }

  /** The mask parsePattern stores for an address and a prefix length. */
  function MaskFor(address: Address, prefix: nat): Mask
    requires address.V4? ==> prefix <= 32
  {
    match address
    case V4(_) => Mask4(MaskWord(prefix))
    case V6(_) => Mask6(seq(16, n requires 0 <= n < 16 => MaskByte(prefix, n)))
    case Unspec | OtherFamily => NoMask
  }

  // ---------------------------------------------------------------------
  // Matching

  /** INADDR_NONE, all ones in either byte order. */
  const InaddrNone: Input.U32 := 0xFFFF_FFFF

  /** The stored IPv4 mask word; the mask is zeroed for other families. */
  function MaskWordOf(m: Mask): Input.U32 {
    if m.Mask4? then m.word else 0
  }

  /** The mask patternMatchIP computes for byte `n` once the bytes before
      it were full. */
  function LoopMask(prefix: nat, n: nat): (mask: Wire.Byte)
    requires prefix >= 8 * n
    ensures mask == MaskByte(prefix, n)
  {
    Pow2Of32();
    var bits := (n + 1) * 8;
    if prefix > bits then 0xff else ShiftedFF(bits - prefix)
  }

  /** After a byte whose mask is not full, every mask byte is zero. */
  lemma RestUnmasked(prefix: nat, n: nat)
    requires MaskByte(prefix, n) < 0xff
    ensures forall j :: n < j ==> MaskByte(prefix, j) == 0
  {
    Pow2Of32();
    forall j | n < j
      ensures MaskByte(prefix, j) == 0
    {
      MaskByteShape(prefix, n);
      MaskByteShape(prefix, j);
    }
  }

  /** patternMatchIP.  The IPv4 case uses the stored mask, the IPv6 case
      recomputes the mask bytes from the prefix length. */
  predicate PatternMatches(pat: Pattern, peer: Address) {
    match pat.address
    case V4(a) =>
      peer.V4? && peer.word != InaddrNone
      && And(a, MaskWordOf(pat.mask)) == And(peer.word, MaskWordOf(pat.mask))
    case V6(a) =>
      peer.V6? && forall n :: 0 <= n < 16 ==> And(a[n], MaskByte(pat.prefix, n)) == And(peer.bytes[n], MaskByte(pat.prefix, n))
    case Unspec => true
    case OtherFamily => false
  }

  /** The loop of patternMatchIP for IPv6: compare byte by byte under the
      mask and stop after the first byte whose mask is not full. */
  method MatchIP(pat: Pattern, peer: Address) returns (matched: bool)
    ensures matched <==> PatternMatches(pat, peer)
  {
    match pat.address {
      case V4(a) =>
        if !peer.V4? || peer.word == InaddrNone {
          return false;
        }
        var m := MaskWordOf(pat.mask);
        return And(a, m) == And(peer.word, m);
      case V6(a) =>
        if !peer.V6? {
          return false;
        }
        var b := peer.bytes;
        var prefix := pat.prefix;
        var n := 0;
        while n < 16
          invariant 0 <= n <= 16 && prefix >= 8 * n
          invariant forall j :: 0 <= j < n ==> And(a[j], MaskByte(prefix, j)) == And(b[j], MaskByte(prefix, j))
        {
          var mask := LoopMask(prefix, n);
          if And(a[n], mask) != And(b[n], mask) {
            return false;
          }
          if mask < 0xff {
            RestUnmasked(prefix, n);
            return true;
          }
          n := n + 1;
        }
        return true;
      case Unspec =>
        return true;
      case OtherFamily =>
        return false;
    }
  }

  /** With the mask parsePattern stores, an IPv4 pattern matches exactly
      the peers whose address agrees with it in the top `prefix` bits. */
  lemma V4Match(pat: Pattern, peer: Address)
    requires pat.address.V4? && pat.prefix <= 32 && pat.mask == MaskFor(pat.address, pat.prefix)
    requires peer.V4?
    ensures PatternMatches(pat, peer) <==>
              peer.word != InaddrNone
              && ClearLow(pat.address.word, 32 - pat.prefix) == ClearLow(peer.word, 32 - pat.prefix)
  {
    Pow2Of32();
    AndHighMask(pat.address.word, 32, 32 - pat.prefix);
    AndHighMask(peer.word, 32, 32 - pat.prefix);
  }

  /** An IPv6 pattern matches exactly the peers that agree with it in the
      bits of every byte that the prefix covers. */
  lemma V6Match(pat: Pattern, peer: Address)
    requires pat.address.V6? && peer.V6?
    ensures PatternMatches(pat, peer) <==>
              forall n :: 0 <= n < 16 ==>
                ClearLow(pat.address.bytes[n], 8 - Covered(pat.prefix, n))
                == ClearLow(peer.bytes[n], 8 - Covered(pat.prefix, n))
  {
    forall n | 0 <= n < 16
      ensures And(pat.address.bytes[n], MaskByte(pat.prefix, n)) == ClearLow(pat.address.bytes[n], 8 - Covered(pat.prefix, n))
      ensures And(peer.bytes[n], MaskByte(pat.prefix, n)) == ClearLow(peer.bytes[n], 8 - Covered(pat.prefix, n))
    {
      AndMaskByte(pat.address.bytes[n], pat.prefix, n);
      AndMaskByte(peer.bytes[n], pat.prefix, n);
    }
  }

  lemma AndMaskByte(x: Wire.Byte, prefix: nat, n: nat)
    ensures And(x, MaskByte(prefix, n)) == ClearLow(x, 8 - Covered(prefix, n))
  {
    Pow2Of32();
    AndHighMask(x, 8, 8 - Covered(prefix, n));
  }

  // ---------------------------------------------------------------------
  // Deciding a connection

  datatype Verdict = Verdict(accepted: bool, requiresQuery: bool)

  const Rejected := Verdict(false, false)

  /** What a matching pattern's action decides; a query accepts and asks
      the user. */
  function Decide(a: Action): (v: Verdict)
    ensures v.accepted <==> a != Reject
    ensures v.requiresQuery <==> a == Query
  {
    match a
    case Accept => Verdict(true, false)
    case Query => Verdict(true, true)
    case Reject => Rejected
  }

  function FirstMatch(filter: seq<Pattern>, peer: Address): (v: Verdict)
    ensures v.requiresQuery ==> v.accepted
  {
    if |filter| == 0 then Rejected
    else if PatternMatches(filter[0], peer) then Decide(filter[0].action)
    else FirstMatch(filter[1..], peer)
  }

  /** verifyConnection; `None` is a peer whose address getpeername could
      not report, which is rejected. */
  function VerifyConnection(filter: seq<Pattern>, peer: Option<Address>): (v: Verdict)
    ensures v.requiresQuery ==> v.accepted
    ensures peer.None? ==> v == Rejected
  {
    if peer.None? then Rejected else FirstMatch(filter, peer.value)
  }

  /** The first matching pattern decides. */
  lemma {:induction false} VerifyFirstMatch(filter: seq<Pattern>, peer: Address, i: nat)
    requires i < |filter| && PatternMatches(filter[i], peer)
    requires forall j :: 0 <= j < i ==> !PatternMatches(filter[j], peer)
    ensures VerifyConnection(filter, Some(peer)) == Decide(filter[i].action)
    decreases i
  {
    if i > 0 {
      assert !PatternMatches(filter[0], peer);
      VerifyFirstMatch(filter[1..], peer, i - 1);
    }
  }

  /** A peer that no pattern matches is rejected. */
  lemma {:induction false} VerifyNoMatch(filter: seq<Pattern>, peer: Address)
    requires forall j :: 0 <= j < |filter| ==> !PatternMatches(filter[j], peer)
    ensures VerifyConnection(filter, Some(peer)) == Rejected
    decreases |filter|
  {
    if |filter| > 0 {
      assert !PatternMatches(filter[0], peer);
      VerifyNoMatch(filter[1..], peer);
    }
  }

  /** The converse: an accepted peer has a first matching pattern whose
      action is not Reject. */
  lemma {:induction false} AcceptedHasWitness(filter: seq<Pattern>, peer: Address)
    requires VerifyConnection(filter, Some(peer)).accepted
    ensures exists i :: 0 <= i < |filter| && PatternMatches(filter[i], peer) && filter[i].action != Reject
                        && forall j :: 0 <= j < i ==> !PatternMatches(filter[j], peer)
    decreases |filter|
  {
    if PatternMatches(filter[0], peer) {
      assert PatternMatches(filter[0], peer) && filter[0].action != Reject;
    } else {
      var rest := filter[1..];
      AcceptedHasWitness(rest, peer);
      var i :| 0 <= i < |rest| && PatternMatches(rest[i], peer) && rest[i].action != Reject
               && forall j :: 0 <= j < i ==> !PatternMatches(rest[j], peer);
      assert filter[i + 1] == rest[i];
      assert forall j :: 0 <= j < i + 1 ==> !PatternMatches(filter[j], peer) by {
        forall j | 0 <= j < i + 1 ensures !PatternMatches(filter[j], peer) {
          if j > 0 {
            assert filter[j] == rest[j - 1];
          }
        }
      }
    }
  }

  // ---------------------------------------------------------------------
  // Parsing

  /** getaddrinfo with AI_NUMERICHOST: the address a numeric host string
      denotes, if any. */
  type Resolver = string -> Option<Address>

  /** A leading '[' is dropped, and then one trailing ']' if present. */
  function StripBrackets(s: string): (r: string)
    ensures (|s| == 0 || s[0] != '[') ==> r == s
    ensures |s| > 0 && s[0] == '[' ==> s[1..] == r || s[1..] == r + "]"
  {
    if |s| > 0 && s[0] == '[' then
      var t := s[1..];
      if |t| > 0 && t[|t| - 1] == ']' then t[..|t| - 1] else t
    else s
  }

  lemma StripBracketsWrapped(n: string)
    ensures StripBrackets("[" + n + "]") == n
  {
    assert ("[" + n + "]")[1..] == n + "]";
  }

  /** The largest prefix a family allows; every family but IPv4 is held to
      the IPv6 bound. */
  function PrefixBound(a: Address): nat {
    if a.V4? then 32 else 128
  }

  datatype Target = Target(address: Address, prefix: nat)

  /** `(unsigned int) atoi(s)`: the int read, reduced to 32 bits. */
  function PrefixValue(s: string): (n: nat)
    ensures n < 0x1_0000_0000
  {
    Atoi(s) % 0x1_0000_0000
  }

  /** The address part of parsePattern: everything after the action
      character, split at the first '/'. */
  function ParseTarget(body: string, resolve: Resolver): (r: Result<Target>)
    ensures r.Ok? ==> r.value.prefix <= PrefixBound(r.value.address)
    ensures SplitFirst(body, '/').before == "" ==> r == Ok(Target(Unspec, 0))
    ensures (SplitFirst(body, '/').before != "" && resolve(StripBrackets(SplitFirst(body, '/').before)).None?)
              ==> r == Err(UnresolvableHost)
  {
    var h := SplitFirst(body, '/');
    var t :-
      if h.before == "" then Ok(Target(Unspec, 0))
      else
        match resolve(StripBrackets(h.before))
        case None => Err(UnresolvableHost)
        case Some(a) =>
          if h.found then
            if a.V4? && '.' in h.after then Err(MaskNotSupported)
            else Ok(Target(a, PrefixValue(h.after)))
          else if a.V4? then Ok(Target(a, 32))
          else if a.V6? then Ok(Target(a, 128))
          else Err(UnknownAddressFamily);
    if t.prefix > PrefixBound(t.address) then Err(InvalidPrefixLength) else Ok(t)
  }

  /** The prefix rules for a resolvable address: the default prefix is
      the full width of the family, a dotted mask is refused for IPv4, and
      a prefix beyond the width of the family is refused. */
  lemma PrefixRules(addr: string, after: string, resolve: Resolver, a: Address)
    requires addr != "" && '/' !in addr && resolve(StripBrackets(addr)) == Some(a)
    ensures ParseTarget(addr, resolve) ==
              if a.V4? then Ok(Target(a, 32))
              else if a.V6? then Ok(Target(a, 128))
              else Err(UnknownAddressFamily)
    ensures ParseTarget(addr + "/" + after, resolve) ==
              if a.V4? && '.' in after then Err(MaskNotSupported)
              else if PrefixValue(after) > PrefixBound(a) then Err(InvalidPrefixLength)
              else Ok(Target(a, PrefixValue(after)))
  {
    SplitFirstAt(addr, '/', after);
  }

  /** The action a leading character names. */
  function ActionOf(c: char): Option<Action> {
    if c == '+' then Some(Accept)
    else if c == '-' then Some(Reject)
    else if c == '?' then Some(Query)
    else None
  }

  /** A pattern as parsePattern leaves it: `action` is `None` when the
      first character is none of '+', '-', '?' and the field is never
      assigned. */
  datatype Reading = Reading(address: Address, prefix: nat, mask: Mask, action: Option<Action>)

  /** parsePattern as written. */
  function ParsePatternAsWritten(p: string, resolve: Resolver): (r: Result<Reading>)
    requires |p| >= 1
    ensures r.Ok? <==> ParseTarget(p[1..], resolve).Ok?
    ensures r.Ok? ==> r.value.action == ActionOf(p[0])
  {
    var t :- ParseTarget(p[1..], resolve);
    Ok(Reading(t.address, t.prefix, MaskFor(t.address, t.prefix), ActionOf(p[0])))
  }

  /** A first character that names no action leaves the action of the
      pattern unset instead of rejecting the entry. */
  lemma AsWrittenLeavesActionUnset(resolve: Resolver)
    ensures ParsePatternAsWritten("*", resolve) == Ok(Reading(Unspec, 0, NoMask, None))
    ensures ParsePattern("*", resolve) == Err(InvalidAction)
  {
    assert "*"[1..] == "";
  }

  /** The patterns parsePattern can produce. */
  predicate WellFormed(p: Pattern) {
    p.prefix <= PrefixBound(p.address)
    && p.mask == MaskFor(p.address, p.prefix)
  }

  /** parsePattern with the missing default: an entry whose first
      character names no action is rejected like any other malformed entry,
      after the address checks. */
  function ParsePattern(p: string, resolve: Resolver): (r: Result<Pattern>)
    requires |p| >= 1
    ensures r.Ok? ==> WellFormed(r.value)
    ensures r.Ok? <==> ParseTarget(p[1..], resolve).Ok? && ActionOf(p[0]).Some?
    ensures r.Ok? ==> ActionOf(p[0]) == Some(r.value.action)
  {
    var t :- ParseTarget(p[1..], resolve);
    match ActionOf(p[0])
    case None => Err(InvalidAction)
    case Some(a) => Ok(Pattern(t.address, t.prefix, MaskFor(t.address, t.prefix), a))
  }

  /** The corrected parser agrees with the one as written whenever the
      action character is valid. */
  lemma ParseAgrees(p: string, resolve: Resolver)
    requires |p| >= 1
    ensures ActionOf(p[0]).Some? && ParsePatternAsWritten(p, resolve).Ok? ==>
              ParsePattern(p, resolve).Ok?
              && var w := ParsePatternAsWritten(p, resolve).value;
                 ParsePattern(p, resolve).value == Pattern(w.address, w.prefix, w.mask, w.action.value)
    ensures ParsePatternAsWritten(p, resolve).Err? ==> ParsePattern(p, resolve) == Err(ParsePatternAsWritten(p, resolve).error)
  {
  }

  // ---------------------------------------------------------------------
  // Building the filter

  /** The entries of the list that are not empty, in order. */
  function NonEmpty(parts: seq<string>): (r: seq<string>)
    ensures |r| <= |parts|
    ensures forall i :: 0 <= i < |r| ==> |r[i]| > 0
  {
    if |parts| == 0 then []
    else if |parts[0]| == 0 then NonEmpty(parts[1..])
    else [parts[0]] + NonEmpty(parts[1..])
  }

  /** The filter drops exactly the empty entries. */
  lemma {:induction false} NonEmptyKeeps(parts: seq<string>)
    ensures forall x :: x in NonEmpty(parts) <==> x in parts && |x| > 0
  {
    if |parts| > 0 {
      NonEmptyKeeps(parts[1..]);
      assert parts == [parts[0]] + parts[1..];
    }
  }

  /** Every entry parsed in order; the first failure is the result. */
  function ParseAll(entries: seq<string>, resolve: Resolver): (r: Result<seq<Pattern>>)
    requires forall i :: 0 <= i < |entries| ==> |entries[i]| > 0
    ensures r.Ok? <==> forall i :: 0 <= i < |entries| ==> ParsePattern(entries[i], resolve).Ok?
    ensures r.Ok? ==> |r.value| == |entries|
                      && forall i :: 0 <= i < |entries| ==> r.value[i] == ParsePattern(entries[i], resolve).value
  {
    if |entries| == 0 then Ok([])
    else
      var first := ParsePattern(entries[0], resolve);
      var rest := ParseAll(entries[1..], resolve);
      var parse := (e: string) requires |e| > 0 => ParsePattern(e, resolve);
      ConsParsed(entries, parse, rest);
      if first.Err? then Err(first.error)
      else if rest.Err? then Err(rest.error)
      else Ok([first.value] + rest.value)
  }

  /** How the results of parsing a non-empty list of entries relate to the
      results for its first entry and for the rest, for any parser. */
  lemma ConsParsed(entries: seq<string>, parse: string --> Result<Pattern>, rest: Result<seq<Pattern>>)
    requires |entries| > 0 && forall i :: 0 <= i < |entries| ==> parse.requires(entries[i])
    requires rest.Ok? <==> forall i :: 0 <= i < |entries[1..]| ==> parse(entries[1..][i]).Ok?
    requires rest.Ok? ==> |rest.value| == |entries[1..]|
                          && forall i :: 0 <= i < |entries[1..]| ==> rest.value[i] == parse(entries[1..][i]).value
    ensures (forall i :: 0 <= i < |entries| ==> parse(entries[i]).Ok?) <==> parse(entries[0]).Ok? && rest.Ok?
    ensures parse(entries[0]).Ok? && rest.Ok? ==>
              forall i :: 0 <= i < |entries| ==> ([parse(entries[0]).value] + rest.value)[i] == parse(entries[i]).value
  {
    forall i | 1 <= i < |entries| ensures entries[i] == entries[1..][i - 1] {
    }
  }

  /** The entries of a filter specification: split at every ',', empty
      ones skipped. */
  function Entries(spec: string): (r: seq<string>)
    ensures forall i :: 0 <= i < |r| ==> |r[i]| > 0
  {
    NonEmpty(Split(spec, ','))
  }

  /** The TcpFilter constructor: each entry parsed in order; the first entry
      that fails to parse is the error. */
  function NewFilter(spec: string, resolve: Resolver): (r: Result<seq<Pattern>>)
    ensures r.Ok? <==> forall i :: 0 <= i < |Entries(spec)| ==> ParsePattern(Entries(spec)[i], resolve).Ok?
    ensures r.Ok? ==> |r.value| == |Entries(spec)|
    ensures r.Ok? ==> forall i :: 0 <= i < |r.value| ==> r.value[i] == ParsePattern(Entries(spec)[i], resolve).value
  {
    ParseAll(Entries(spec), resolve)
  }

  /** Every pattern of a built filter is one parsePattern can produce. */
  lemma FilterWellFormed(spec: string, resolve: Resolver)
    requires NewFilter(spec, resolve).Ok?
    ensures forall p :: p in NewFilter(spec, resolve).value ==> WellFormed(p)
  {
    var entries := Entries(spec);
    forall p | p in NewFilter(spec, resolve).value
      ensures WellFormed(p)
    {
      var i :| 0 <= i < |NewFilter(spec, resolve).value| && NewFilter(spec, resolve).value[i] == p;
      assert ParsePattern(entries[i], resolve).Ok?;
    }
  }

  /** A specification without ',' is one pattern, or none when empty. */
  lemma SingleEntry(spec: string, resolve: Resolver)
    requires ',' !in spec
    ensures spec == "" ==> NewFilter(spec, resolve) == Ok([])
    ensures spec != "" ==> (NewFilter(spec, resolve).Ok? <==> ParsePattern(spec, resolve).Ok?)
    ensures spec != "" && NewFilter(spec, resolve).Ok? ==> NewFilter(spec, resolve).value == [ParsePattern(spec, resolve).value]
  {
    assert FindFrom(spec, ',', 0) == |spec|;
    assert Split(spec, ',') == [spec];
    var entries := NonEmpty([spec]);
    assert [spec][1..] == [];
    if spec == "" {
      assert entries == [];
    } else {
      assert entries == [spec];
    }
  }

  // ---------------------------------------------------------------------
  // Printing

  /** getnameinfo with NI_NUMERICHOST: the numeric text of an address. */
  type Namer = Address -> string

  function ActionChar(a: Action): (c: char)
    ensures ActionOf(c) == Some(a)
  {
    match a
    case Accept => '+'
    case Reject => '-'
    case Query => '?'
  }

  /** Reading an action character and writing it agree in both directions. */
  lemma ActionCharOnly(c: char, a: Action)
    ensures ActionOf(c) == Some(a) <==> c == ActionChar(a)
  {
  }

  /** The address text: the bare name for IPv4, in brackets for IPv6,
      nothing for AF_UNSPEC. */
  function AddressText(a: Address, name: Namer): (t: string)
    requires !a.OtherFamily?
    ensures a.V6? ==> t == "[" + name(a) + "]"
    ensures a.V4? ==> t == name(a)
    ensures a == Unspec ==> t == ""
  {
    match a
    case V4(_) => name(a)
    case V6(_) => "[" + name(a) + "]"
    case Unspec => ""
  }

  /** snprintf into a buffer with room for `n` characters. */
  function Truncate(s: string, n: nat): (r: string)
    ensures |r| == if |s| <= n then |s| else n
    ensures r == s[..|r|]
  {
    if |s| <= n then s else s[..n]
  }

  /** patternToStr.  The buffer leaves room for three prefix digits.  An
      address of another family leaves the text unset in the source, so it
      is excluded. */
  function PatternToStr(p: Pattern, name: Namer): (s: string)
    requires !p.address.OtherFamily?
    ensures |s| >= 1 && s[0] == ActionChar(p.action)
    ensures AddressText(p.address, name) == "" ==> s == [ActionChar(p.action)]
  {
    var addr := AddressText(p.address, name);
    var a := ActionChar(p.action);
    if addr == "" then [a]
    else Truncate([a] + addr + "/" + Decimal(p.prefix), 1 + |addr| + 1 + 3)
  }

  /** The name an address prints as reads back as that address, and
      contains nothing the parser would split or strip. */
  predicate Consistent(a: Address, name: Namer, resolve: Resolver) {
    var n := name(a);
    |n| > 0 && '/' !in n && resolve(n) == Some(a) && (a.V4? ==> n[0] != '[')
  }

  lemma NoSlashInBrackets(n: string)
    requires '/' !in n
    ensures '/' !in "[" + n + "]"
  {
    var b := "[" + n + "]";
    assert forall i :: 1 <= i < |b| - 1 ==> b[i] == n[i - 1];
  }

  /** A printed prefix length reads back as itself and has no '.'. */
  lemma PrintedPrefix(n: nat)
    requires n < 0x1_0000_0000
    ensures PrefixValue(Decimal(n)) == n && '.' !in Decimal(n)
  {
    AtoiDecimal(n);
    var d := Decimal(n);
    assert forall i :: 0 <= i < |d| ==> IsDigit(d[i]);
  }

  /** The address text and prefix printed by patternToStr read back as
      the same address and prefix. */
  lemma PrintedTarget(p: Pattern, name: Namer, resolve: Resolver)
    requires WellFormed(p) && (p.address.V4? || p.address.V6?)
    requires Consistent(p.address, name, resolve)
    ensures ParseTarget(AddressText(p.address, name) + "/" + Decimal(p.prefix), resolve) == Ok(Target(p.address, p.prefix))
  {
    var addr := AddressText(p.address, name);
    if p.address.V6? {
      NoSlashInBrackets(name(p.address));
      StripBracketsWrapped(name(p.address));
    }
    assert resolve(StripBrackets(addr)) == Some(p.address);
    PrintedPrefix(p.prefix);
    PrefixRules(addr, Decimal(p.prefix), resolve, p.address);
  }

  /** A printed pattern parses back to itself.  A pattern without an
      address prints no prefix, so its prefix must be the 0 the parser
      gives it. */
  lemma PrintThenParse(p: Pattern, name: Namer, resolve: Resolver)
    requires WellFormed(p) && !p.address.OtherFamily?
    requires p.address == Unspec ==> p.prefix == 0
    requires p.address != Unspec ==> Consistent(p.address, name, resolve)
    ensures ParsePattern(PatternToStr(p, name), resolve) == Ok(p)
  {
    var s := PatternToStr(p, name);
    if p.address == Unspec {
      assert s[1..] == "";
    } else {
      var addr := AddressText(p.address, name);
      var d := Decimal(p.prefix);
      DecimalShort(p.prefix);
      assert s == [ActionChar(p.action)] + addr + "/" + d;
      assert s[1..] == addr + "/" + d;
      PrintedTarget(p, name, resolve);
    }
  }
}
