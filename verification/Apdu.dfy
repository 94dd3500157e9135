/** Commands of smart cards (apduCmdEnc, apduCmdDec). */
module Apdu {
  import opened Octets
  import Mem

  datatype Option<+T> = None | Some(value: T)

  datatype Cmd = Cmd(cla: nat, ins: nat, p1: nat, p2: nat, cdf: seq<nat>, rdfLen: nat)

  // apduCmdIsValid, with octets where the source has them
  predicate Valid(cmd: Cmd)
  {
    && cmd.cla < 256 && cmd.ins < 256 && cmd.p1 < 256 && cmd.p2 < 256
    && |cmd.cdf| < 65536 && IsOctets(cmd.cdf) && cmd.rdfLen <= 65536
  }

  // ---------------------------------------------------------------- the code of a command

  function Header(cmd: Cmd): (h: seq<nat>)
    ensures |h| == 4
  {
    [cmd.cla, cmd.ins, cmd.p1, cmd.p2]
  }

  function Two(n: nat): (s: seq<nat>)
    ensures |s| == 2
  {
    [n / 256 % 256, n % 256]
  }

  // Lc: empty, short or extended
  function LcCode(n: nat, rdfLen: nat): seq<nat>
  {
    if n == 0 then []
    else if n < 256 && rdfLen <= 256 then [n]
    else [0] + Two(n)
  }

  // Le: empty, short, or extended in two or three octets
  function LeCode(n: nat, rdfLen: nat): seq<nat>
  {
    if rdfLen == 0 then []
    else if rdfLen <= 256 && n < 256 then [rdfLen % 256]
    else if n > 0 then Two(rdfLen)
    else [0] + Two(rdfLen)
  }

  function Code(cmd: Cmd): seq<nat>
  {
    Header(cmd) + (LcCode(|cmd.cdf|, cmd.rdfLen) + cmd.cdf + LeCode(|cmd.cdf|, cmd.rdfLen))
  }

  /** STB 34.101.79, clause 12.1: the header, then Lc and the data, then Le; one octet each for
      lengths up to 255 and 256, otherwise two octets behind an octet 0 that is written once. */
  lemma CodeCases(cmd: Cmd)
    ensures var code, n, r, d := Code(cmd), |cmd.cdf|, cmd.rdfLen, cmd.cdf;
            && |code| >= 4 && code[0] == cmd.cla && code[1] == cmd.ins && code[2] == cmd.p1 && code[3] == cmd.p2
            && var body := code[4..];
               if n == 0 && r == 0 then body == []
               else if n == 0 && r <= 256 then body == [r % 256]
               else if n == 0 then body == [0, r / 256 % 256, r % 256]
               else if n < 256 && r == 0 then body == [n] + d
               else if n < 256 && r <= 256 then body == [n] + d + [r % 256]
               else if r == 0 then body == [0, n / 256 % 256, n % 256] + d
               else body == [0, n / 256 % 256, n % 256] + d + [r / 256 % 256, r % 256]
  {
    var n, r := |cmd.cdf|, cmd.rdfLen;
    assert Code(cmd)[4..] == LcCode(n, r) + cmd.cdf + LeCode(n, r);
  }

  // Writes s after the k octets already written, unless there is no buffer.
  method Put(apdu: array?<nat>, k: nat, s: seq<nat>, ghost m: seq<nat>, ghost done: seq<nat>) returns (l: nat)
    requires |done| == k
    requires apdu != null ==> k + |s| <= apdu.Length == |m| && apdu[..] == Mem.Write(m, 0, done)
    modifies if apdu != null then {apdu} else {}
    ensures l == |done + s|
    ensures apdu != null ==> apdu[..] == Mem.Write(m, 0, done + s)
  {
    if apdu != null {
      forall i | k <= i < k + |s| {
        apdu[i] := s[i - k];
      }
      assert apdu[..] == Mem.Write(old(apdu[..]), k, s);
      Mem.WriteAdjacent(m, 0, done, s);
    }
    l := k + |s|;
  }

  /** apduCmdEnc: writes the code, or only counts when there is no buffer. */
  method Enc(apdu: array?<nat>, cmd: Cmd) returns (count: nat)
    requires Valid(cmd) && (apdu != null ==> |Code(cmd)| <= apdu.Length)
    modifies if apdu != null then {apdu} else {}
    ensures count == |Code(cmd)|
    ensures apdu != null ==> apdu[..] == Mem.Write(old(apdu[..]), 0, Code(cmd))
  {
    hide Mem.Write, Header;
    ghost var m := if apdu != null then apdu[..] else [];
    var n := |cmd.cdf|;
    ghost var h, c, e := Header(cmd), LcCode(n, cmd.rdfLen), LeCode(n, cmd.rdfLen);
    CodeParts(cmd, h, c, e);
    if apdu != null {
      NothingWritten(m);
    }
    count := Put(apdu, 0, Header(cmd), m, []);
    if n == 0 {
      assert h + c + cmd.cdf == h;
    } else if n < 256 && cmd.rdfLen <= 256 {
      count := Put(apdu, count, [n], m, h);
      count := Put(apdu, count, cmd.cdf, m, h + c);
    } else {
      assert c == [0, n / 256 % 256, n % 256];
      count := Put(apdu, count, [0, n / 256 % 256, n % 256], m, h);
      count := Put(apdu, count, cmd.cdf, m, h + c);
    }
    if cmd.rdfLen == 0 {
      assert h + c + cmd.cdf + e == h + c + cmd.cdf;
    } else if cmd.rdfLen <= 256 && n < 256 {
      count := Put(apdu, count, [cmd.rdfLen % 256], m, h + c + cmd.cdf);
    } else if n > 0 {
      assert e == [cmd.rdfLen / 256 % 256, cmd.rdfLen % 256];
      count := Put(apdu, count, [cmd.rdfLen / 256 % 256, cmd.rdfLen % 256], m, h + c + cmd.cdf);
    } else {
      assert e == [0, cmd.rdfLen / 256 % 256, cmd.rdfLen % 256];
      count := Put(apdu, count, [0, cmd.rdfLen / 256 % 256, cmd.rdfLen % 256], m, h + c + cmd.cdf);
    }
  }

  lemma NothingWritten(m: seq<nat>)
    ensures Mem.Write(m, 0, []) == m
  {
  }

  lemma CodeParts(cmd: Cmd, h: seq<nat>, c: seq<nat>, e: seq<nat>)
    requires h == Header(cmd) && c == LcCode(|cmd.cdf|, cmd.rdfLen) && e == LeCode(|cmd.cdf|, cmd.rdfLen)
    ensures Code(cmd) == h + c + cmd.cdf + e && [] + h == h
  {
  }

  // ---------------------------------------------------------------- reading a code

  // How Lc is written in what follows the header: its length and its value.
  function ReadLc(s: seq<nat>): Option<(nat, nat)>
  {
    if |s| <= 1 || (|s| == 3 && s[0] == 0) then Some((0, 0))
    else if s[0] != 0 then Some((1, s[0]))
    else if |s| < 3 then None
    else Some((3, s[1] * 256 + s[2]))
  }

  function OrMax(n: nat, max: nat): nat
  {
    if n == 0 then max else n
  }

  // Le in the octets that remain after n octets of data, whose length took lcLen octets
  function ReadLe(s: seq<nat>, lcLen: nat, n: nat): Option<nat>
  {
    if |s| == 0 then Some(0)
    else if |s| == 1 then if lcLen == 3 then None else Some(OrMax(s[0], 256))
    else if |s| == 2 then
      var r := OrMax(s[0] * 256 + s[1], 65536);
      if lcLen <= 1 || (n < 256 && r <= 256) then None else Some(r)
    else if |s| == 3 then
      var r := OrMax(s[1] * 256 + s[2], 65536);
      if s[0] != 0 || lcLen != 0 || r <= 256 then None else Some(r)
    else None
  }

  function Read(apdu: seq<nat>): Option<Cmd>
  {
    if |apdu| < 4 then None
    else
      var s := apdu[4..];
      var lc := ReadLc(s);
      if lc.None? then None
      else
        var (lcLen, n) := lc.value;
        if lcLen + n > |s| then None
        else
          var le := ReadLe(s[lcLen + n..], lcLen, n);
          if le.None? then None
          else Some(Cmd(apdu[0], apdu[1], apdu[2], apdu[3], s[lcLen..lcLen + n], le.value))
  }

  lemma Tail(apdu: seq<nat>, a: nat, b: nat, n: nat)
    requires a + b + n <= |apdu|
    ensures apdu[a..][b + n..] == apdu[a + b + n..] && apdu[a..][b..b + n] == apdu[a + b..a + b + n]
  {
  }

  // The last part of the decoder: what remains of the code is Le.
  method DecLe(s: seq<nat>, lcLen: nat, n: nat) returns (le: Option<nat>)
    ensures le == ReadLe(s, lcLen, n)
  {
    var rdfLen: nat := 0;
    if |s| == 1 {
      rdfLen := s[0];
      if rdfLen == 0 {
        rdfLen := 256;
      }
      if lcLen == 3 {
        return None;
      }
    } else if |s| == 2 {
      rdfLen := s[0] * 256 + s[1];
      if rdfLen == 0 {
        rdfLen := 65536;
      }
      if lcLen <= 1 || (n < 256 && rdfLen <= 256) {
        return None;
      }
    } else if |s| == 3 {
      rdfLen := s[1] * 256 + s[2];
      if rdfLen == 0 {
        rdfLen := 65536;
      }
      if s[0] != 0 || lcLen != 0 || rdfLen <= 256 {
        return None;
      }
    } else if |s| > 3 {
      return None;
    }
    le := Some(rdfLen);
  }

  /** apduCmdDec, with the moving cursor and the count of remaining octets. */
  method Dec(apdu: seq<nat>) returns (cmd: Option<Cmd>)
    ensures cmd == Read(apdu)
  {
    hide ReadLe;
    var at, count: int, lcLen, n: nat := 0, |apdu|, 0, 0;
    if count < 4 {
      return None;
    }
    at, count := 4, count - 4;
    if count == 0 || count == 1 || (count == 3 && apdu[at] == 0) {
      lcLen, n := 0, 0;
    } else {
      if apdu[at] != 0 {
        lcLen, n := 1, apdu[at];
      } else {
        if count < 3 {
          return None;
        }
        lcLen := 3;
        n := apdu[at + 1];
        n := n * 256;
        n := n + apdu[at + 2];
      }
      at, count := at + lcLen, count - lcLen;
    }
    assert ReadLc(apdu[4..]) == Some((lcLen, n));
    if n > count {
      return None;
    }
    var cdf := apdu[at..at + n];
    at, count := at + n, count - n;
    Tail(apdu, 4, lcLen, n);
    var le := DecLe(apdu[at..], lcLen, n);
    if le.None? {
      return None;
    }
    cmd := Some(Cmd(apdu[0], apdu[1], apdu[2], apdu[3], cdf, le.value));
  }

  // ---------------------------------------------------------------- round trips

  lemma LcReadBack(n: nat, rdfLen: nat, cdf: seq<nat>, s: seq<nat>)
    requires |cdf| == n < 65536 && rdfLen <= 65536
    requires s == LcCode(n, rdfLen) + cdf + LeCode(n, rdfLen)
    ensures ReadLc(s) == Some((|LcCode(n, rdfLen)|, n))
  {
  }

  lemma LeReadBack(n: nat, rdfLen: nat)
    requires n < 65536 && rdfLen <= 65536
    ensures ReadLe(LeCode(n, rdfLen), |LcCode(n, rdfLen)|, n) == Some(rdfLen)
  {
  }

  /** Every valid command is read back from its code. */
  lemma EncThenDec(cmd: Cmd)
    requires Valid(cmd)
    ensures Read(Code(cmd)) == Some(cmd)
  {
    hide ReadLc, ReadLe, LcCode, LeCode;
    var n, c, e := |cmd.cdf|, LcCode(|cmd.cdf|, cmd.rdfLen), LeCode(|cmd.cdf|, cmd.rdfLen);
    var s := c + cmd.cdf + e;
    assert Code(cmd)[4..] == s;
    LcReadBack(n, cmd.rdfLen, cmd.cdf, s);
    LeReadBack(n, cmd.rdfLen);
    assert s[|c|..|c| + n] == cmd.cdf && s[|c| + n..] == e;
  }

  // Lc is written in three octets.
  predicate Extended(apdu: seq<nat>)
    requires |apdu| >= 4
  {
    |apdu| > 7 && apdu[4] == 0
  }

  // The forms that the decoder accepts and the encoder never writes: an extended Lc that
  // would do in the short form, or no data at all behind an extended Lc.
  predicate Redundant(apdu: seq<nat>, cmd: Cmd)
    requires |apdu| >= 4
  {
    Extended(apdu) && ((|cmd.cdf| < 256 && cmd.rdfLen == 0) || |cmd.cdf| == 0)
  }

  lemma TwoOf(n: nat, a: nat, b: nat)
    requires a < 256 && b < 256 && OrMax(a * 256 + b, 65536) == n
    ensures Two(n) == [a, b]
  {
  }

  /** An accepted code is written again exactly when it is not one of the redundant forms,
      which are longer than the code of their command. */
  lemma DecThenEnc(apdu: seq<nat>)
    requires IsOctets(apdu) && Read(apdu).Some?
    ensures var cmd := Read(apdu).value;
            && Valid(cmd)
            && (Code(cmd) == apdu <==> !Redundant(apdu, cmd))
            && (Redundant(apdu, cmd) ==> |Code(cmd)| < |apdu|)
  {
    hide LcCode, LeCode, ReadLc, ReadLe, Read, Header;
    var cmd := Read(apdu).value;
    var n := |cmd.cdf|;
    var lcLen, rest := ReadParts(apdu);
    if Redundant(apdu, cmd) {
      RedundantLonger(rest, lcLen, n, cmd.rdfLen);
    } else {
      LcAgain(apdu[4..], lcLen, n, cmd.rdfLen);
      LeAgain(rest, lcLen, n, cmd.rdfLen);
    }
  }

  // The parts of a code that is read.
  lemma ReadParts(apdu: seq<nat>) returns (lcLen: nat, rest: seq<nat>)
    requires IsOctets(apdu) && Read(apdu).Some?
    ensures var cmd, s := Read(apdu).value, apdu[4..];
            var n := |cmd.cdf|;
            && Valid(cmd) && |apdu| >= 4 && apdu == Header(cmd) + s
            && ReadLc(s) == Some((lcLen, n)) && lcLen + n <= |s| && rest == s[lcLen + n..] && IsOctets(s) && IsOctets(rest)
            && s == s[..lcLen] + cmd.cdf + rest && ReadLe(rest, lcLen, n) == Some(cmd.rdfLen)
            && n < 65536 && (lcLen == 0 || lcLen == 1 || lcLen == 3)
            && (lcLen == 3 <==> Extended(apdu)) && (lcLen == 0 ==> n == 0) && (lcLen == 1 ==> 0 < n < 256)
  {
    hide ReadLc, ReadLe, Read;
    ReadUnfold(apdu);
    var s := apdu[4..];
    Slices(apdu, 4, |s|);
    LcRange(s);
    var (k, n) := ReadLc(s).value;
    lcLen, rest := k, s[k + n..];
    Slices(s, k, n);
    LeRange(rest, k, n);
    FourFirst(apdu);
  }

  lemma ReadUnfold(apdu: seq<nat>)
    requires Read(apdu).Some?
    ensures |apdu| >= 4 && ReadLc(apdu[4..]).Some?
    ensures var s := apdu[4..];
            var (k, n) := ReadLc(s).value;
            && k + n <= |s| && ReadLe(s[k + n..], k, n).Some?
            && Read(apdu) == Some(Cmd(apdu[0], apdu[1], apdu[2], apdu[3], s[k..k + n], ReadLe(s[k + n..], k, n).value))
  {
    hide ReadLc, ReadLe;
  }

  lemma FourFirst(s: seq<nat>)
    requires |s| >= 4
    ensures s == [s[0], s[1], s[2], s[3]] + s[4..]
  {
  }

  lemma Slices(s: seq<nat>, i: nat, n: nat)
    requires IsOctets(s) && i + n <= |s|
    ensures IsOctets(s[i..i + n]) && IsOctets(s[i + n..]) && IsOctets(s[i..])
    ensures |s[i..i + n]| == n && s == s[..i] + s[i..i + n] + s[i + n..]
  {
  }

  lemma RedundantLonger(rest: seq<nat>, lcLen: nat, n: nat, r: nat)
    requires lcLen == 3 && ReadLe(rest, lcLen, n) == Some(r)
    requires (n == 0 && |rest| > 0) || (0 < n < 256 && r == 0)
    ensures |LcCode(n, r)| + |LeCode(n, r)| < lcLen + |rest|
  {
  }

  lemma LcRange(s: seq<nat>)
    requires IsOctets(s) && ReadLc(s).Some?
    ensures var (lcLen, n) := ReadLc(s).value;
            && n < 65536 && (lcLen == 0 || lcLen == 1 || lcLen == 3)
            && (lcLen == 3 <==> |s| > 3 && s[0] == 0)
            && (lcLen == 0 ==> n == 0) && (lcLen == 1 ==> 0 < n < 256)
            && (lcLen == 3 && n == 0 ==> |s| > 3)
  {
  }

  lemma LeRange(s: seq<nat>, lcLen: nat, n: nat)
    requires IsOctets(s) && ReadLe(s, lcLen, n).Some?
    ensures ReadLe(s, lcLen, n).value <= 65536
  {
  }

  lemma LcAgain(s: seq<nat>, lcLen: nat, n: nat, r: nat)
    requires IsOctets(s) && ReadLc(s) == Some((lcLen, n)) && lcLen + n <= |s|
    requires ReadLe(s[lcLen + n..], lcLen, n) == Some(r)
    requires !(lcLen == 3 && ((n < 256 && r == 0) || n == 0))
    ensures LcCode(n, r) == s[..lcLen]
  {
    if lcLen == 3 {
      assert s[..3] == [s[0], s[1], s[2]];
    } else if lcLen == 1 {
      assert s[..1] == [s[0]];
    }
  }

  lemma LeAgain(s: seq<nat>, lcLen: nat, n: nat, r: nat)
    requires IsOctets(s) && ReadLe(s, lcLen, n) == Some(r) && n < 65536
    requires lcLen == 0 ==> n == 0
    requires lcLen == 1 ==> 0 < n < 256
    requires lcLen == 0 || lcLen == 1 || lcLen == 3
    requires !(lcLen == 3 && n == 0)
    ensures LeCode(n, r) == s
  {
    if |s| == 2 {
      TwoOf(r, s[0], s[1]);
    } else if |s| == 3 {
      TwoOf(r, s[1], s[2]);
    }
  }
}
