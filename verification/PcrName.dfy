/**
 TPM principal names.  A TPM hosted system is named by the list of platform
 configuration registers it was measured into, printed into the first extension
 of its principal: decimal register numbers and hexadecimal register values,
 each joined with commas.
 */
module PcrName {
  import opened Wrappers
  import opened Sequences
  import opened Auth

  datatype NameError =
    | WrongType | NoExtension | WrongExtension | WrongArity
    | NotStrings | CountMismatch | BadNumber | BadHex

  // ----- strconv.Itoa and strconv.ParseInt(_, 10, 16)

  function DigitChar(d: nat): (c: char)
    requires d < 10
    ensures '0' <= c <= '9' && DigitValue(c) == d
  {
    ('0' as int + d) as char
  }

  function DigitValue(c: char): nat
    requires '0' <= c <= '9'
  {
    c as int - '0' as int
  }

  function Digits(n: nat): string {
    if n < 10 then [DigitChar(n)] else Digits(n / 10) + [DigitChar(n % 10)]
  }

  function Itoa(n: int): string {
    if n < 0 then "-" + Digits(-n) else Digits(n)
  }

  function ParseDigits(s: string): Option<nat> {
    if s == "" then None
    else
      var c := s[|s| - 1];
      if !('0' <= c <= '9') then None
      else if |s| == 1 then Some(DigitValue(c))
      else
        match ParseDigits(s[..|s| - 1])
        case None => None
        case Some(n) => Some(10 * n + DigitValue(c))
  }

  predicate FitsInt16(n: int) {
    -0x8000 <= n < 0x8000
  }

  function ParseInt16(s: string): Option<int> {
    if s == "" then None
    else
      var negative := s[0] == '-';
      var body := if s[0] == '-' || s[0] == '+' then s[1..] else s;
      match ParseDigits(body)
      case None => None
      case Some(n) =>
        var v: int := if negative then 0 - (n as int) else n as int;
        if FitsInt16(v) then Some(v) else None
  }

  predicate IsNumeral(s: string) {
    s != "" && forall i :: 0 <= i < |s| ==> '0' <= s[i] <= '9'
  }

  lemma {:induction false} ParseDigitsInvertsDigits(n: nat)
    ensures ParseDigits(Digits(n)) == Some(n)
    ensures IsNumeral(Digits(n))
  {
    if n >= 10 {
      ParseDigitsInvertsDigits(n / 10);
      var s := Digits(n);
      assert s[..|s| - 1] == Digits(n / 10);
    }
  }

  lemma ParseSigned(s: string, n: nat)
    requires IsNumeral(s) && ParseDigits(s) == Some(n)
    ensures ParseInt16(s) == if n < 0x8000 then Some(n) else None
    ensures ParseInt16("-" + s) == if n <= 0x8000 then Some(0 - n as int) else None
    ensures ',' !in s && ',' !in "-" + s
  {
    assert s[0] != '-' && s[0] != '+';
    assert ("-" + s)[1..] == s;
  }

  /** A printed number is read back exactly when it fits sixteen signed bits. */
  lemma ParseIntInvertsItoa(n: int)
    ensures ParseInt16(Itoa(n)) == if FitsInt16(n) then Some(n) else None
    ensures ',' !in Itoa(n)
  {
    var abs := if n < 0 then -n else n;
    ParseDigitsInvertsDigits(abs);
    ParseSigned(Digits(abs), abs);
  }

  // ----- hex.EncodeToString and hex.DecodeString

  function HexChar(d: nat): (c: char)
    requires d < 16
    ensures c != ','
    ensures HexValue(c) == Some(d)
  {
    if d < 10 then ('0' as int + d) as char else ('a' as int + (d - 10)) as char
  }

  function HexValue(c: char): (v: Option<nat>)
    ensures v.Some? ==> v.value < 16
  {
    if '0' <= c <= '9' then Some(c as int - '0' as int)
    else if 'a' <= c <= 'f' then Some(c as int - 'a' as int + 10)
    else if 'A' <= c <= 'F' then Some(c as int - 'A' as int + 10)
    else None
  }

  function HexEncode(b: seq<Byte>): string {
    if b == [] then "" else [HexChar(b[0] / 16), HexChar(b[0] % 16)] + HexEncode(b[1..])
  }

  function HexDecode(s: string): Option<seq<Byte>> {
    if s == "" then Some([])
    else if |s| == 1 then None
    else
      match (HexValue(s[0]), HexValue(s[1]), HexDecode(s[2..]))
      case (Some(hi), Some(lo), Some(rest)) => Some([16 * hi + lo] + rest)
      case _ => None
  }

  lemma {:induction false} HexDecodeInvertsHexEncode(b: seq<Byte>)
    ensures HexDecode(HexEncode(b)) == Some(b)
    ensures ',' !in HexEncode(b)
  {
    if b != [] {
      HexDecodeInvertsHexEncode(b[1..]);
      var s := HexEncode(b);
      assert s[2..] == HexEncode(b[1..]);
      assert b == [b[0]] + b[1..];
    }
  }

  // ----- strings.Join and strings.Split

  function Join(parts: seq<string>): string {
    if parts == [] then ""
    else if |parts| == 1 then parts[0]
    else parts[0] + "," + Join(parts[1..])
  }

  function Split(s: string): (parts: seq<string>)
    ensures |parts| >= 1
  {
    if s == "" then [""]
    else
      var rest := Split(s[1..]);
      if s[0] == ',' then [""] + rest else [[s[0]] + rest[0]] + rest[1..]
  }

  lemma {:induction false} SplitPlain(s: string)
    requires ',' !in s
    ensures Split(s) == [s]
  {
    if s != "" {
      SplitPlain(s[1..]);
      assert s == [s[0]] + s[1..];
    }
  }

  lemma {:induction false} SplitPrefix(s: string, t: string)
    requires ',' !in s
    ensures Split(s + "," + t) == [s] + Split(t)
  {
    if s == "" {
      assert (s + "," + t)[1..] == t;
    } else {
      SplitPrefix(s[1..], t);
      assert (s + "," + t)[1..] == s[1..] + "," + t;
      assert s == [s[0]] + s[1..];
    }
  }

  predicate CommaFree(parts: seq<string>) {
    forall i :: 0 <= i < |parts| ==> ',' !in parts[i]
  }

  /** Splitting undoes joining, except that the empty list comes back as one empty part. */
  lemma {:induction false} SplitInvertsJoin(parts: seq<string>)
    requires CommaFree(parts)
    ensures Split(Join(parts)) == if parts == [] then [""] else parts
  {
    if |parts| == 1 {
      SplitPlain(parts[0]);
    } else if |parts| > 1 {
      SplitInvertsJoin(parts[1..]);
      SplitPrefix(parts[0], Join(parts[1..]));
    }
  }

  // ----- the name and its parser

  function NumStrs(nums: seq<int>): seq<string> {
    seq(|nums|, i requires 0 <= i < |nums| => Itoa(nums[i]))
  }

  function ValStrs(vals: seq<seq<Byte>>): seq<string> {
    seq(|vals|, i requires 0 <= i < |vals| => HexEncode(vals[i]))
  }

  function PcrExt(nums: seq<int>, vals: seq<seq<Byte>>): PrinExt {
    PrinExt("PCRs", [Str(Join(NumStrs(nums))), Str(Join(ValStrs(vals)))])
  }

  /** Builds the name of the system measured by the given registers. */
  method MakeTpm2Prin(keyHash: seq<Byte>, pcrNums: seq<int>, pcrVals: seq<seq<Byte>>) returns (name: Prin)
    ensures name == Prin("tpm2", Bytes(keyHash), [PcrExt(pcrNums, pcrVals)])
  {
    var numStrs: seq<string> := [];
    for i := 0 to |pcrNums|
      invariant numStrs == NumStrs(pcrNums)[..i]
    {
      numStrs := numStrs + [Itoa(pcrNums[i])];
    }
    var valStrs: seq<string> := [];
    for i := 0 to |pcrVals|
      invariant valStrs == ValStrs(pcrVals)[..i]
    {
      valStrs := valStrs + [HexEncode(pcrVals[i])];
    }
    assert numStrs == NumStrs(pcrNums) && valStrs == ValStrs(pcrVals);
    name := Prin("tpm2", Bytes(keyHash), [PrinExt("PCRs", [Str(Join(numStrs)), Str(Join(valStrs))])]);
  }

  /** Reads the pairs at positions `0 .. |nums|`, stopping at the first bad one. */
  function ReadPairs(nums: seq<string>, vals: seq<string>): Result<(seq<int>, seq<Byte>), NameError>
    requires |nums| == |vals|
  {
    if nums == [] then Ok(([], []))
    else
      var k := |nums| - 1;
      match ReadPairs(nums[..k], vals[..k])
      case Err(e) => Err(e)
      case Ok((ns, bs)) =>
        match (ParseInt16(nums[k]), HexDecode(vals[k]))
        case (None, _) => Err(BadNumber)
        case (_, None) => Err(BadHex)
        case (Some(n), Some(b)) => Ok((ns + [n], bs + b))
  }

  /** What the register extraction computes, for a principal of the given type. */
  function Extract(typ: string, p: Prin): Result<(seq<int>, seq<Byte>), NameError> {
    if p.typ != typ then Err(WrongType)
    else if |p.ext| == 0 then Err(NoExtension)
    else if p.ext[0].name != "PCRs" then Err(WrongExtension)
    else if |p.ext[0].args| != 2 then Err(WrongArity)
    else
      match (p.ext[0].args[0], p.ext[0].args[1])
      case (Str(a), Str(b)) =>
        if |Split(a)| != |Split(b)| then Err(CountMismatch) else ReadPairs(Split(a), Split(b))
      case _ => Err(NotStrings)
  }

  method ExtractTpm2Pcrs(p: Prin) returns (r: Result<(seq<int>, seq<Byte>), NameError>)
    ensures r == Extract("tpm2", p)
  {
    if p.typ != "tpm2" { return Err(WrongType); }
    if |p.ext| == 0 { return Err(NoExtension); }
    if p.ext[0].name != "PCRs" { return Err(WrongExtension); }
    var sp := p.ext[0];
    if |sp.args| != 2 { return Err(WrongArity); }
    if !sp.args[0].Str? || !sp.args[1].Str? { return Err(NotStrings); }
    var nums := Split(sp.args[0].s);
    var vals := Split(sp.args[1].s);
    if |nums| != |vals| { return Err(CountMismatch); }
    var pcrNums: seq<int> := [];
    var pcrVals: seq<Byte> := [];
    for i := 0 to |nums|
      invariant ReadPairs(nums[..i], vals[..i]) == Ok((pcrNums, pcrVals))
    {
      assert nums[..i + 1][..i] == nums[..i] && vals[..i + 1][..i] == vals[..i];
      var n := ParseInt16(nums[i]);
      var b := HexDecode(vals[i]);
      if n.None? || b.None? {
        ReadPairsFailsEarly(nums, vals, i + 1);
        return Err(if n.None? then BadNumber else BadHex);
      }
      pcrNums := pcrNums + [n.value];
      pcrVals := pcrVals + b.value;
    }
    assert nums[..|nums|] == nums && vals[..|nums|] == vals;
    r := Ok((pcrNums, pcrVals));
  }

  lemma {:induction false} ReadPairsFailsEarly(nums: seq<string>, vals: seq<string>, k: nat)
    requires |nums| == |vals| && k <= |nums|
    requires ReadPairs(nums[..k], vals[..k]).Err?
    ensures ReadPairs(nums, vals) == ReadPairs(nums[..k], vals[..k])
  {
    if k == |nums| {
      assert nums[..k] == nums && vals[..k] == vals;
    } else {
      var m := |nums| - 1;
      assert nums[..m][..k] == nums[..k] && vals[..m][..k] == vals[..k];
      ReadPairsFailsEarly(nums[..m], vals[..m], k);
    }
  }

  lemma ReadLastPair(nums: seq<string>, vals: seq<string>)
    requires |nums| == |vals| && |nums| > 0
    ensures var k := |nums| - 1;
            ReadPairs(nums, vals) ==
              match ReadPairs(nums[..k], vals[..k])
              case Err(e) => Err(e)
              case Ok((ns, bs)) =>
                match (ParseInt16(nums[k]), HexDecode(vals[k]))
                case (None, _) => Err(BadNumber)
                case (_, None) => Err(BadHex)
                case (Some(n), Some(b)) => Ok((ns + [n], bs + b))
  {
  }

  /** A printed pair behind other printed pairs is read after them. */
  lemma ReadOneMorePrinted(nums: seq<int>, vals: seq<seq<Byte>>, n: int, v: seq<Byte>)
    requires |nums| == |vals|
    ensures ReadPairs(NumStrs(nums + [n]), ValStrs(vals + [v])) ==
              match ReadPairs(NumStrs(nums), ValStrs(vals))
              case Err(e) => Err(e)
              case Ok((ns, bs)) => if FitsInt16(n) then Ok((ns + [n], bs + v)) else Err(BadNumber)
  {
    assert NumStrs(nums + [n])[..|nums|] == NumStrs(nums);
    assert ValStrs(vals + [v])[..|vals|] == ValStrs(vals);
    ReadLastPair(NumStrs(nums + [n]), ValStrs(vals + [v]));
    ParseIntInvertsItoa(n);
    HexDecodeInvertsHexEncode(v);
  }

  predicate AllFitInt16(nums: seq<int>) {
    forall i :: 0 <= i < |nums| ==> FitsInt16(nums[i])
  }

  lemma {:induction false} ReadPairsOfPrinted(nums: seq<int>, vals: seq<seq<Byte>>)
    requires |nums| == |vals|
    ensures ReadPairs(NumStrs(nums), ValStrs(vals)) ==
              if AllFitInt16(nums) then Ok((nums, Concat(vals))) else Err(BadNumber)
  {
    if nums != [] {
      var k := |nums| - 1;
      ReadPairsOfPrinted(nums[..k], vals[..k]);
      ReadOneMorePrinted(nums[..k], vals[..k], nums[k], vals[k]);
      ConcatAppend(vals[..k], vals[k]);
      assert nums == nums[..k] + [nums[k]] && vals == vals[..k] + [vals[k]];
      assert AllFitInt16(nums) <==> AllFitInt16(nums[..k]) && FitsInt16(nums[k]);
    }
  }

  /** The lists for which a printed name can be read back. */
  predicate Readable(nums: seq<int>, vals: seq<seq<Byte>>) {
    && nums != []
    && (|nums| == |vals| || (|nums| == 1 && vals == []))
    && AllFitInt16(nums)
  }

  lemma SplitPrintedLists(nums: seq<int>, vals: seq<seq<Byte>>)
    ensures Split(Join(NumStrs(nums))) == if nums == [] then [""] else NumStrs(nums)
    ensures Split(Join(ValStrs(vals))) == if vals == [] then [""] else ValStrs(vals)
  {
    var ns, vs := NumStrs(nums), ValStrs(vals);
    forall i | 0 <= i < |nums| ensures ',' !in ns[i] { ParseIntInvertsItoa(nums[i]); }
    forall i | 0 <= i < |vals| ensures ',' !in vs[i] { HexDecodeInvertsHexEncode(vals[i]); }
    SplitInvertsJoin(ns);
    SplitInvertsJoin(vs);
  }

  /** What extraction sees of a printed name: the two split lists, read in pairs. */
  lemma ExtractPrinted(typ: string, keyHash: Term, nums: seq<int>, vals: seq<seq<Byte>>, more: seq<PrinExt>)
    ensures var ns := if nums == [] then [""] else NumStrs(nums);
            var vs := if vals == [] then [""] else ValStrs(vals);
            Extract(typ, Prin(typ, keyHash, [PcrExt(nums, vals)] + more))
              == if |ns| != |vs| then Err(CountMismatch) else ReadPairs(ns, vs)
  {
    SplitPrintedLists(nums, vals);
    assert ([PcrExt(nums, vals)] + more)[0] == PcrExt(nums, vals);
  }

  /**
   Register extraction undoes name construction, whatever key the name hangs off
   and however the name has been extended since, exactly for the readable lists.
   */
  lemma PcrNameRoundTrip(typ: string, keyHash: Term, nums: seq<int>, vals: seq<seq<Byte>>, more: seq<PrinExt>)
    ensures var r := Extract(typ, Prin(typ, keyHash, [PcrExt(nums, vals)] + more));
            if Readable(nums, vals) then r == Ok((nums, Concat(vals))) else r.Err?
  {
    ExtractPrinted(typ, keyHash, nums, vals, more);
    if nums == [] {
      NoEmptyNumber(if vals == [] then [""] else ValStrs(vals));
    } else if |nums| == |vals| {
      ReadPairsOfPrinted(nums, vals);
    } else if |nums| == 1 && vals == [] {
      ReadSingleWithoutValue(nums[0]);
      assert nums == [nums[0]] && NumStrs(nums) == [Itoa(nums[0])];
    }
  }

  lemma NoEmptyNumber(vals: seq<string>)
    ensures |vals| == 1 ==> ReadPairs([""], vals) == Err(BadNumber)
  {
    if |vals| == 1 {
      var nums := [""];
      assert nums[..0] == [] && vals[..0] == [];
      assert ReadPairs(nums[..0], vals[..0]).Ok?;
    }
  }

  lemma ReadSingleWithoutValue(n: int)
    ensures ReadPairs([Itoa(n)], [""]) == if FitsInt16(n) then Ok(([n], [])) else Err(BadNumber)
  {
    ParseIntInvertsItoa(n);
    var nums, vals := [Itoa(n)], [""];
    var noNums: seq<int>, noBytes: seq<Byte> := [], [];
    assert nums[..0] == [] && vals[..0] == [];
    assert ReadPairs(nums[..0], vals[..0]) == Ok((noNums, noBytes));
    assert HexDecode(vals[0]) == Some(noBytes);
    assert noNums + [n] == [n] && noBytes + noBytes == noBytes;
  }

  // ----- the printed forms character by character

  /** Decimal digits, the last one for the remainder, and no leading zero. */
  lemma {:induction false} DecimalDigits(n: nat)
    ensures var s := Digits(n);
            && s != "" && s[|s| - 1] == "0123456789"[n % 10]
            && s[..|s| - 1] == (if n < 10 then "" else Digits(n / 10))
            && (n > 0 ==> s[0] != '0')
  {
    if n >= 10 {
      DecimalDigits(n / 10);
      var s := Digits(n);
      assert s[..|s| - 1] == Digits(n / 10);
    }
  }

  /** Two characters per byte, the high half first, in lower case. */
  lemma {:induction false} HexDigits(b: seq<Byte>, i: nat)
    requires i < |b|
    ensures var s := HexEncode(b);
            && |s| == 2 * |b|
            && s[2 * i] == "0123456789abcdef"[b[i] / 16] && s[2 * i + 1] == "0123456789abcdef"[b[i] % 16]
  {
    var s := HexEncode(b);
    HexLength(b);
    if i == 0 {
      HexCharTable(b[0] / 16);
      HexCharTable(b[0] % 16);
    } else {
      HexDigits(b[1..], i - 1);
      assert s[2..] == HexEncode(b[1..]);
      assert s[2 * i] == s[2..][2 * (i - 1)] && s[2 * i + 1] == s[2..][2 * (i - 1) + 1];
    }
  }

  lemma HexCharTable(d: nat)
    requires d < 16
    ensures HexChar(d) == "0123456789abcdef"[d]
  {
  }

  lemma {:induction false} HexLength(b: seq<Byte>)
    ensures |HexEncode(b)| == 2 * |b|
  {
    if b != [] {
      HexLength(b[1..]);
    }
  }

  predicate IsHexDigit(c: char) {
    '0' <= c <= '9' || 'a' <= c <= 'f' || 'A' <= c <= 'F'
  }

  predicate AllHexDigits(s: string) {
    forall i :: 0 <= i < |s| ==> IsHexDigit(s[i])
  }

  /** Digits have the same value in either case. */
  lemma HexValueAccepts(c: char)
    ensures HexValue(c).Some? <==> IsHexDigit(c)
    ensures HexValue(c).Some? ==>
              "0123456789abcdef"[HexValue(c).value] == c || "0123456789ABCDEF"[HexValue(c).value] == c
  {
  }

  /** The parser reads digits of either case, and only an even number of them. */
  lemma {:induction false} HexDecodeAccepts(s: string)
    ensures HexDecode(s).Some? <==> |s| % 2 == 0 && AllHexDigits(s)
  {
    if |s| >= 2 {
      HexDecodeAccepts(s[2..]);
      HexValueAccepts(s[0]);
      HexValueAccepts(s[1]);
      TwoMoreDigits(s);
    }
  }

  lemma TwoMoreDigits(s: string)
    requires |s| >= 2
    ensures AllHexDigits(s) <==> IsHexDigit(s[0]) && IsHexDigit(s[1]) && AllHexDigits(s[2..])
  {
    assert forall i :: 2 <= i < |s| ==> s[i] == s[2..][i - 2];
  }

  lemma {:induction false} ParseDigitsAccepts(s: string)
    ensures ParseDigits(s).Some? <==> IsNumeral(s)
  {
    if |s| > 1 {
      var k := |s| - 1;
      ParseDigitsAccepts(s[..k]);
      assert IsNumeral(s) <==> IsNumeral(s[..k]) && '0' <= s[k] <= '9';
    }
  }

  /** One sign of either kind, digits, and sixteen bits. */
  lemma ParseIntAccepts(s: string)
    ensures var body := if s != "" && (s[0] == '-' || s[0] == '+') then s[1..] else s;
            && (ParseInt16(s).Some? ==> IsNumeral(body))
            && (IsNumeral(body) ==>
                  && ParseDigits(body).Some?
                  && var n: int := ParseDigits(body).value;
                     var v := if s[0] == '-' then -n else n;
                     ParseInt16(s) == if -0x8000 <= v <= 0x7FFF then Some(v) else None)
  {
    ParseDigitsAccepts(if s != "" && (s[0] == '-' || s[0] == '+') then s[1..] else s);
  }

  /** Splitting cuts at every comma and nowhere else. */
  lemma {:induction false} JoinInvertsSplit(s: string)
    ensures Join(Split(s)) == s && CommaFree(Split(s))
  {
    if s != "" {
      var rest := Split(s[1..]);
      JoinInvertsSplit(s[1..]);
      if s[0] == ',' {
        assert ([""] + rest)[1..] == rest;
        assert s == "" + "," + s[1..];
      } else {
        var parts := [[s[0]] + rest[0]] + rest[1..];
        assert parts[1..] == rest[1..];
        assert s == [s[0]] + s[1..];
      }
    }
  }

  /** What the name holds: the lists of numbers and values, if it has them at all. */
  function Lists(typ: string, p: Prin): Option<(seq<string>, seq<string>)> {
    if p.typ == typ && |p.ext| > 0 && p.ext[0].name == "PCRs" && |p.ext[0].args| == 2
       && p.ext[0].args[0].Str? && p.ext[0].args[1].Str?
    then Some((Split(p.ext[0].args[0].s), Split(p.ext[0].args[1].s)))
    else None
  }

  predicate AllRead(nums: seq<string>, vals: seq<string>) {
    |nums| == |vals| && forall i :: 0 <= i < |nums| ==> ParseInt16(nums[i]).Some? && HexDecode(vals[i]).Some?
  }

  function Numbers(nums: seq<string>, vals: seq<string>): (r: seq<int>)
    requires AllRead(nums, vals)
  {
    seq(|nums|, i requires 0 <= i < |nums| => ParseInt16(nums[i]).value)
  }

  function Values(nums: seq<string>, vals: seq<string>): (r: seq<seq<Byte>>)
    requires AllRead(nums, vals)
  {
    seq(|vals|, i requires 0 <= i < |vals| => HexDecode(vals[i]).value)
  }

  lemma {:induction false} PairsAreRead(nums: seq<string>, vals: seq<string>)
    requires |nums| == |vals|
    ensures ReadPairs(nums, vals).Ok? <==> AllRead(nums, vals)
    ensures AllRead(nums, vals) ==> ReadPairs(nums, vals) == Ok((Numbers(nums, vals), Concat(Values(nums, vals))))
  {
    if nums == [] {
      assert Numbers(nums, vals) == [] && Values(nums, vals) == [];
    } else {
      var k := |nums| - 1;
      PairsAreRead(nums[..k], vals[..k]);
      ReadLastPair(nums, vals);
      AllReadSplits(nums, vals);
      if AllRead(nums, vals) {
        ConcatAppend(Values(nums[..k], vals[..k]), HexDecode(vals[k]).value);
      }
    }
  }

  lemma AllReadSplits(nums: seq<string>, vals: seq<string>)
    requires |nums| == |vals| > 0
    ensures var k := |nums| - 1;
            && (AllRead(nums, vals) <==>
                  AllRead(nums[..k], vals[..k]) && ParseInt16(nums[k]).Some? && HexDecode(vals[k]).Some?)
            && (AllRead(nums, vals) ==>
                  && Numbers(nums, vals) == Numbers(nums[..k], vals[..k]) + [ParseInt16(nums[k]).value]
                  && Values(nums, vals) == Values(nums[..k], vals[..k]) + [HexDecode(vals[k]).value])
  {
    var k := |nums| - 1;
    assert forall i :: 0 <= i < k ==> nums[i] == nums[..k][i] && vals[i] == vals[..k][i];
  }

  /** Extraction succeeds exactly on names whose first extension lists pairs that can all be read. */
  lemma ExtractIsExact(typ: string, p: Prin)
    ensures var lists, r := Lists(typ, p), Extract(typ, p);
            && (r.Ok? <==> lists.Some? && AllRead(lists.value.0, lists.value.1))
            && (r.Ok? ==>
                  r == Ok((Numbers(lists.value.0, lists.value.1), Concat(Values(lists.value.0, lists.value.1)))))
            && (r == Err(WrongType) <==> p.typ != typ)
            && (r == Err(NoExtension) <==> p.typ == typ && p.ext == [])
            && (r == Err(CountMismatch) <==> lists.Some? && |lists.value.0| != |lists.value.1|)
  {
    if Lists(typ, p).Some? && |Lists(typ, p).value.0| == |Lists(typ, p).value.1| {
      PairsAreRead(Lists(typ, p).value.0, Lists(typ, p).value.1);
      PairErrors(Lists(typ, p).value.0, Lists(typ, p).value.1);
    }
  }

  lemma {:induction false} PairErrors(nums: seq<string>, vals: seq<string>)
    requires |nums| == |vals|
    ensures ReadPairs(nums, vals).Err? ==> ReadPairs(nums, vals).error.BadNumber? || ReadPairs(nums, vals).error.BadHex?
  {
    if nums != [] {
      PairErrors(nums[..|nums| - 1], vals[..|nums| - 1]);
    }
  }

  /** The extension for two registers, printed. */
  lemma PrintedRegisters()
    ensures PcrExt([17, 8], [[0xAB, 0x01], [0x0C]]) == PrinExt("PCRs", [Str("17,8"), Str("ab01,0c")])
  {
    var nums, vals := NumStrs([17, 8]), ValStrs([[0xAB, 0x01], [0x0C]]);
    assert Digits(17) == Digits(1) + ['7'];
    assert nums[0] == "17" && nums[1] == "8" && nums == ["17", "8"];
    assert HexEncode([0xAB, 0x01][1..]) == "01";
    assert vals[0] == "ab01" && vals[1] == "0c" && vals == ["ab01", "0c"];
    assert Join(["17", "8"]) == "17,8" && Join(["ab01", "0c"]) == "ab01,0c";
  }
}
