# Bee2 verification model

A model in Dafny of the algebra, the protocols, the signatures and the codecs of the bee2
library, with proofs of what its documentation and its standards promise. Every module
follows one part of the library:

- `PowersOfTwo`, `Numbers`, `Octets`, `Mem`: words, divisibility, octet strings and regions
  of one memory, with `memJoin` for arbitrary overlaps.
- `Gf2Poly`, `Gf2Gcd`, `Bels`, `BelsStd`: polynomials over GF(2) as the numbers whose bits
  are the coefficients, Bezout coefficients, and secret sharing of STB 34.101.60, with given
  and with the standard keys.
- `Qr`, `QrPower`, `Gf2Red`, `Gf2Field`, `DstuPoint`: quotient rings, sliding-window powers,
  word-level reduction, traces and quadratic equations, and point compression of
  DSTU 4145-2002 (section 6.7 for the quadratic equations).
- `Gfp`, `EcpPoints`, `EcpJacobian`, `EcpTriple`, `EcpAliased`, `Ecp`, `EcpAffine`, `EcpSwu`:
  curves over prime fields. The formulas are functions with laws, and methods on coordinate
  buffers, whose output may be an input, are proved equal to them.
- `Ec2Points`, `Ec2LopezDahab`, `Ec2`, `Ec2Curve`: the same for binary curves.
- `Groups`, `PrimeOrder`, `Naf`, `Ec`: multiples of points by window NAF and sums of
  multiples by interleaving, over any abelian group.
- `Bake`, `BakeBmqv`, `BakeBsts`, `BakeBpace`: the key-agreement protocols of STB 34.101.66
  as state objects over a group of prime order, and runs of two honest parties.
- `Signing`, `G12s`, `DstuSign`, `Bign96`: signing against verification. GOST R 34.10-2012,
  sections 6.1 and 6.2, for `G12s`.
- `Der`, `Oid`, `DerTree`, `DerCanonical`, `CmdSig`, `Bpki`, `Apdu`: the codecs. X.690, sections
  8.1.3, 8.3, 8.9, 8.19 and 10.1, for the first four; RFC 5208, sections 5 and 6, for `Bpki`; STB 34.101.79,
  clause 12.1, for `Apdu`.
- `Rng`: call-once initialization and the reference-counted generator as interleaved steps.

Hash functions, ciphers, key derivation, random generators, certificate checks and files are
parameters. Null buffers are null arrays, so that the counting passes are the same methods.

Where the code does not do what one might expect, the model follows the code:

- `ecpAddJ` with one buffer for both operands and the result overwrites za before it finds
  that the operands are equal. The result is right exactly for the operands of
  `EcpAliased.AliasedExact`; it is wrong for (0 : y : 1), the form the base points of the
  bign curves take, for every A (`EcpAliased.AliasedSumIsWrong`).
- `ecpSWU` leaves the curve for a in {0, 1, -1} when B is not a square (`EcpSwu.SwuOnCurve`).
- `dstuPointCompress` writes nothing for x = 0, `dstuPointRecover` then writes a root only,
  and not behind the octets of x but at the octet `ec->f->n`, a count of words; the code 1
  with A = 0 leads to a division by zero (`DstuPoint.Recover`).
- In BMQV a party whose peer's response is 0 takes the base point, while the peer fails
  (`BakeBmqv.Run`); BSTS refuses empty certificates (`BakeBsts.Run`).
- `g12sSign` does not retry when s = 0 (`G12s.SignThenVerify`).
- `bign96Sign` subtracts a hash value that may exceed q: `Bign96.SignThenVerify` says exactly
  when the signature is accepted, `Bign96.RefusedSignature` gives refused ones. The challenge
  has bit 103 set; the comments there speak of 2^l.
- `derTIsValid` compares the number of a tag in the wrong order of octets (`Der.TagExact`):
  `derTEnc` refuses well-formed tags that `derTDec` reads (`Der.TagRead`; an example, with the
  code 1F 81 00, is `Der.TagNotWritten`).
- `derTDec` answers 0 for a tag with an empty first octet (`Der.TDec`) and never reads four
  octets, and `derTSIZEDec` accepts a value without octets (`Der.SizeCanonical`; an example is
  `Der.EmptySizeIsRead`).
- `derOIDDec` drops the last number of an identifier when it is unfinished, and accepts an
  empty value (`Oid.ReadCanonical`).
- `cmdSigDec` also accepts a date of zeros that is written out (`CmdSig.ReadCanonical`), and the
  readers of nested structures accept what the readers of their leaves do
  (`DerCanonical.ReadCanonical`).
- The comment in `cmd.h` puts the date of a signature behind its value; the code writes and
  reads it in front (`CmdSig.Enc`).

## Model
| member | source | states |
|---|---|---|
| `Bels.Share` | src/crypto/bels.c:314-370 | share i is the residue of (x^l + m0) k + s modulo x^l + mi, for the k of threshold - 1 blocks that the generator gives; the error codes for a missing generator, a bad length and a bad threshold |
| `Bels.Recover` | src/crypto/bels.c:459-561 | answers ERR_BAD_PUBKEY exactly when the keys are not pairwise coprime; otherwise the result is the residue modulo the zero key of the one polynomial below the product that agrees with every share |
| `Bels.ShareThenRecover` | src/crypto/bels.c:314-561 | the shares of any list of at least threshold users, in any order, give back exactly s |
| `Bels.CrtUnique` | src/crypto/bels.c:545-550 | two polynomials below the product that agree modulo pairwise coprime keys are equal |
| `Bels.SharesDetermineSecret` | src/crypto/bels.c:352-364 | whatever polynomial of the right degree agrees with enough shares has the secret as its residue modulo the zero key |
| `Bels.StepAsCoded` | src/crypto/bels.c:531-550 | one round, written with the leading words split off as in the buffers, keeps all earlier shares, adds the new one and multiplies g by the new key |
| `Bels.SharesHideSecret` | src/crypto/bels.c:348-364 | fewer than threshold shares under keys coprime with the zero key say nothing: some j turns every k for s into k + j for s' with the same shares |
| `Bels.Decomposition` | src/crypto/bels.c:348-356 | every polynomial below x^(threshold l) is (x^l + m0) k + s for exactly one k and one s |
| `BelsStd.Shares2HideSecret` | src/crypto/bels.c:400-418 | the same for shares with standard keys |
| `BelsStd.Share2` | src/crypto/bels.c:372-427 | user i + 1 gets the share under the standard key of that number; the error codes in order |
| `BelsStd.Recover2` | src/crypto/bels.c:563-674 | answers ERR_BAD_PUBKEY exactly when a number is not from 1 to 16 or repeats; otherwise the residue of the one polynomial that agrees with every share |
| `BelsStd.Share2ThenRecover2` | src/crypto/bels.c:372-674 | the shares of any at least threshold different users give back exactly s |
| `BelsStd.KeysCoprime` | src/crypto/bels.c:24-72 | the tables hold different polynomials, so irreducible ones with different numbers are pairwise coprime |
| `Gf2Gcd.ExGcd` | src/math/pp/pp_gcd.c:116-218 | the gcd with Bezout coefficients that satisfy the degree bounds the callers assert |
| `Gf2Gcd.CoprimeDivides` | src/crypto/bels.c:522-529 | coprime divisors of a polynomial multiply to a divisor |
| `Gf2Gcd.DistinctIrreducible` | src/crypto/bels.c:149-203 | distinct irreducible keys of one degree are coprime |
| `Gf2Red.RedTrinomial` | src/math/gf2.c:44-113 | for every word size and all legal exponents the low n words of the buffer become the remainder of the whole 2n-word buffer modulo the trinomial |
| `Gf2Red.RedPentanomial` | src/math/gf2.c:144-191 | the same for a pentanomial |
| `Gf2Field.Tr` | src/math/gf2.c:615-637 | returns the trace, as the sum of all conjugates, which is always 0 or 1 |
| `Gf2Field.QSolve` | src/math/gf2.c:643-689 | returns a root of z^2 + a z = b exactly when one exists |
| `Gf2Field.HalfTraceSolves` | src/math/gf2.c:676-688 | for odd degree the half-trace of an element of trace 0 solves z^2 + z = a |
| `Gf2Field.TraceFlip` | src/crypto/dstu.c:801-818 | in odd degree adding 1 changes the trace |
| `Gf2Field.SolvableIff` | src/math/gf2.c:670-675 | where the quadratic has a root, the trace of b / a^2 is 0 |
| `DstuPoint.Compress` | src/crypto/dstu.c:690-740 | the code is x with its lowest bit replaced by the trace of y / x; for x = 0 nothing is written |
| `DstuPoint.Recover` | src/crypto/dstu.c:746-822 | the recovered point is on the curve, has the code given and trace A; a code is refused only if no such point exists; for the code 0 only a root is written, at the octet whose number is the count of words |
| `DstuPoint.CompressThenRecover` | src/crypto/dstu.c:690-822 | recovery undoes compression exactly for x not 0 with tr(x) = A, except for x = 1 with tr(y / x) = 0 |
| `DstuPoint.EncodesUnique` | src/crypto/dstu.c:782-818 | a code determines its point |
| `Qr.Fermat` | src/math/ecp.c:1231-1240 | a^(Size-1) = 1 for nonzero a in prime and binary fields |
| `Qr.InvLaw` | src/math/ecp.c:1231-1240 | the power Size-2 of a nonzero element is its inverse |
| `QrPower.Power` | src/math/qr.c:98-178 | a^b for every exponent and buffer length, with the slide width the code chooses from that length; the position ends by wrapping to SIZE_MAX after bit 0 |
| `QrPower.NextSlide` | src/math/qr.c:138-143 | every slide is odd, no wider than the width, and is the next bits of the exponent |
| `QrPower.AppendSlide` | src/math/qr.c:157-170 | squaring through a slide and multiplying by its table entry appends its bits to the exponent |
| `Naf.Recode` | src/math/ww.c:406-466 | the packed code is the code of digits of the right form whose value is a, at most one more than a has bits; among w consecutive digits at most one is not 0, except that a highest 1 may stand one place nearer; the code fits 2n + 1 words; it is empty exactly for 0 |
| `Naf.ReadSymbol` | src/math/ec.c:198-232 | w bits of the packed code give the highest digit, an even value standing for a zero of one bit |
| `Ec.MulA` | src/math/ec.c:168-236 | FALSE exactly when d a is O, otherwise d a, in any abelian group for every scalar length and window width |
| `Ec.AddMulA` | src/math/ec.c:285-390 | FALSE exactly when the sum of all d_i a_i is O, otherwise that sum |
| `Ec.PartialDouble` | src/math/ec.c:351-382 | one level of the interleaving: the accumulated sum doubles while every operand's digit moves one place |
| `EcpPoints.Finish` | src/math/ecp.c:200-560 | every Jacobian formula ends with Z = Q, X = x3 Q^2, Y = y3 Q^3 for the affine sum of its slope, and then converts to it |
| `EcpJacobian.DblJLaw` | src/math/ecp.c:200-257 | doubling in Jacobian coordinates is affine doubling, for O and points of order 2 too |
| `EcpJacobian.DblJA3Law` | src/math/ecp.c:265-318 | for A = -3 both doublings write the same coordinates |
| `EcpJacobian.DblAJLaw` | src/math/ecp.c:328-388 | doubling an affine point is affine doubling |
| `EcpJacobian.AddJLaw` | src/math/ecp.c:397-487 | adding is affine addition for O, equal, opposite and 2-torsion operands too |
| `EcpJacobian.AddAJLaw` | src/math/ecp.c:505-570 | adding an affine point is affine addition |
| `EcpTriple.TplJLaw` | src/math/ecp.c:640-716 | tripling is two affine additions exactly where the tangent is defined |
| `EcpTriple.TplJA3Law` | src/math/ecp.c:725-797 | for A = -3 both triplings write the same coordinates |
| `EcpTriple.NonsingularSmooth` | src/math/ecp.c:894-935 | a nonzero discriminant makes the tangent defined at every point, so that the tripling law applies |
| `Ecp.FromAJ` | src/math/ecp.c:133-147 | the buffer then holds the affine point |
| `Ecp.ToAJ` | src/math/ecp.c:150-176 | FALSE exactly for O, otherwise the affine coordinates |
| `Ecp.DblJ` | src/math/ecp.c:200-257 | in place or not, the buffer holds the coordinates of the formula and so the double |
| `Ecp.DblJA3` | src/math/ecp.c:265-318 | in place or not, the buffer holds the same coordinates as the general doubling |
| `Ecp.DblAJ` | src/math/ecp.c:328-388 | the output may be the input |
| `Ecp.AddJ` | src/math/ecp.c:397-487 | the sum, when the output is neither or one of the operands; when it is both, what the code leaves there and exactly when that is the sum |
| `EcpAliased.AliasedExact` | src/math/ecp.c:440-464 | with all three buffers equal the result is the double exactly when za or ya is 0 or the affine point and s = 2 za satisfy two polynomial equations, one for each coordinate |
| `EcpAliased.AliasedHalf` | src/math/ecp.c:440-464 | 2 za = 1 is enough for the right result |
| `EcpAliased.AliasedSumIsWrong` | src/math/ecp.c:440-464 | for every A, also -3, and every field but that of 7 elements the sum of (0 : y : 1) with itself is wrong |
| `Ecp.AddAJ` | src/math/ecp.c:505-570 | the sum, whatever operands the output is |
| `Ecp.SubJ` | src/math/ecp.c:587-606 | a plus the opposite of b |
| `Ecp.SubAJ` | src/math/ecp.c:614-631 | a plus the opposite of b |
| `Ecp.TplJ` | src/math/ecp.c:640-716 | in place or not, the buffer holds the coordinates of the formula, and it is the triple exactly where the tangent is defined |
| `Ecp.TplJA3` | src/math/ecp.c:725-797 | in place or not, the same coordinates as the general tripling, and the triple under the same condition |
| `EcpAffine.IsOnA` | src/math/ecp.c:1048-1069 | decides the curve equation and the ranges |
| `EcpAffine.AddAA` | src/math/ecp.c:1088-1138 | FALSE exactly when the affine sum is O, otherwise the sum |
| `EcpAffine.SubAA` | src/math/ecp.c:1145-1195 | on the curve, FALSE exactly when a + (-b) is O, otherwise that point |
| `EcpAffine.NegOnCurve` | src/math/ecp.c:1076-1085 | the opposite point is on the curve exactly when the point is, and taking it twice changes nothing |
| `EcpAffine.AddOnCurve` | src/math/ecp.c:1088-1138 | the sum of two points of the curve is on the curve |
| `EcpSwu.SWU` | src/math/ecp.c:1210-1267 | writes the point of the map; it is on the curve exactly when a is not 0, 1, -1 or B is a square |
| `EcpSwu.SwuRoot` | src/math/ecp.c:1210-1267 | which point it is: x1 solves a linear equation; over x1 when g(x1) is a nonzero square, with an ordinate that is a square itself; otherwise over -a^2 x1, with a root of -a^6 g(x1) that is a square together with a or without it, according to p modulo 8 |
| `EcpSwu.SwuOnCurve` | src/math/ecp.c:1210-1267 | the same of the map itself, in both directions, including g(x1) = 0 |
| `EcpSwu.Twist` | src/math/ecp.c:1230-1248 | g(x2) = (-a^2)^3 g(x1) unless the denominator vanishes |
| `EcpSwu.Euler` | src/math/ecp.c:1249-1262 | y^((p-1)/2) = 1 exactly for nonzero squares |
| `Ec2LopezDahab.DblLDLaw` | src/math/ec2.c:194-241 | doubling is affine doubling, for O and the point of order 2 too |
| `Ec2LopezDahab.DblALDLaw` | src/math/ec2.c:249-287 | doubling an affine point of the curve is affine doubling |
| `Ec2LopezDahab.AddLDLaw` | src/math/ec2.c:295-380 | adding points of the curve is affine addition, for O, equal and opposite operands too |
| `Ec2LopezDahab.AddALDLaw` | src/math/ec2.c:391-467 | adding an affine point of the curve is affine addition |
| `Ec2.ToALD` | src/math/ec2.c:140-163 | FALSE exactly for O, otherwise the affine coordinates |
| `Ec2.DblLD` | src/math/ec2.c:194-241 | in place or not, the buffer holds the coordinates of the formula and so the double |
| `Ec2.DblALD` | src/math/ec2.c:249-287 | the output may be the input |
| `Ec2.AddLD` | src/math/ec2.c:295-380 | the sum, whatever operands the output is |
| `Ec2.AddALD` | src/math/ec2.c:391-467 | the sum, whatever operands the output is |
| `Ec2.IsOnA` | src/math/ec2.c:732-755 | decides the curve equation and the ranges |
| `Ec2.AddAA` | src/math/ec2.c:773-837 | FALSE exactly when the affine sum is O, otherwise the sum; the output may be b |
| `Ec2Curve.AddOnCurve` | src/math/ec2.c:773-837 | the sum of two points of the curve is on the curve |
| `Ec2Curve.NegOnCurve` | src/math/ec2.c:761-771 | the opposite point is on the curve with the point, and taking it twice changes nothing |
| `PrimeOrder.TimesVanishes` | src/math/ec.c:254-270 | in a group of prime order q a multiple k a of a nonzero a is O exactly when q divides k |
| `PrimeOrder.ResponseLaw` | src/crypto/bake.c:363-379 | with s = (u - t d) mod q both u G - t Q = s G and s G + t Q = u G, for Q = d G |
| `Bake.Respond` | src/crypto/bake.c:363-369 | the reduced product, shifted key and modular subtraction give (u - (2^l + t) d) mod q |
| `Bake.TRange` | src/crypto/bake.c:354-361 | 2^l + t is positive and below q |
| `BakeBmqv.SharedOf` | src/crypto/bake.c:370-380 | the point a party computes depends on the two responses only: the base point where the peer's is 0, failure where its own is 0 alone, the product multiple otherwise |
| `BakeBmqv.SharedAgree` | src/crypto/bake.c:370-506 | both parties get a point exactly when both responses are 0 or neither is, and then the same one |
| `BakeBmqv.Bmqv.Start` | src/crypto/bake.c:184-240 | a state exactly when the own certificate is accepted and holds a point |
| `BakeBmqv.Bmqv.Step2` | src/crypto/bake.c:253-283 | the ephemeral point and what the state keeps of it |
| `BakeBmqv.Bmqv.Step3` | src/crypto/bake.c:295-409 | the answer with every error in order, the keys with the octets they are hashed from, and the tag |
| `BakeBmqv.Bmqv.Step4` | src/crypto/bake.c:429-536 | the same for the other side; the keys are already set when a tag is rejected |
| `BakeBmqv.SameKey` | src/crypto/bake.c:380-514 | whatever messages they get, step 3 and step 4 end with one K0 only with the same shared coordinate, certificates and hello strings, short of a collision |
| `BakeBmqv.Run` | src/crypto/bake.c:619-716 | in a run of honest parties with matching settings both finish exactly when both responses are 0 or neither is; the other outcomes; no tag is rejected; finished parties hold the same K0 and, with a tag, the same K1 |
| `BakeBsts.OpenSeal` | src/crypto/bake.c:917-947 | opening a sealed response and certificate checks the tag, decrypts and gives back the response and the certified point |
| `BakeBsts.OpenExact` | src/crypto/bake.c:1032-1062 | what is opened is exactly what was sealed, with a certificate that is accepted; everything else is refused |
| `BakeBsts.HonestResponse` | src/crypto/bake.c:1073-1080 | an honest response satisfies s G + (2^l + t) Q = V |
| `BakeBsts.LowOverlay` | src/crypto/bake.c:944-947 | the challenge written over the low words of u is what step 5 reads |
| `BakeBsts.Bsts.Step3` | src/crypto/bake.c:858-950 | the answer with every error, and t in place of the low words of u |
| `BakeBsts.Bsts.Step4` | src/crypto/bake.c:970-1096 | the checks in order and the sealed answer |
| `BakeBsts.Bsts.Step5` | src/crypto/bake.c:1115-1181 | the checks in order, with the challenge taken from where u was |
| `BakeBsts.SameKey` | src/crypto/bake.c:916-1031 | one K0 only with the same shared coordinate and hello strings, short of a collision |
| `BakeBsts.Run` | src/crypto/bake.c:1225-1410 | an honest run passes every check and both sides hold the same K0, unless a certificate is empty, which the length tests refuse |
| `BakeBpace.Bpace.Step3` | src/crypto/bake.c:1511-1557 | the answer, and x(Va) in place of Ra // Rb |
| `BakeBpace.Bpace.Step4` | src/crypto/bake.c:1568-1658 | the same W from the decrypted strings, the keys and the tag |
| `BakeBpace.Bpace.Step5` | src/crypto/bake.c:1670-1749 | the same keys from x(Va) kept in R, the check of the tag and the answer |
| `BakeBpace.SharedY` | src/crypto/bake.c:1601-1630 | both parties hash the same string |
| `BakeBpace.SameKey` | src/crypto/bake.c:1621-1723 | one K0 only with the same shared coordinate, the same coordinates of Va and Vb and the same hello strings, short of a collision |
| `BakeBpace.Run` | src/crypto/bake.c:1824-1925 | with equal passwords and settings an honest run passes every check and ends with one K0 |
| `Signing.Sum2Is` | src/crypto/g12s.c:996-1001 | i G + j (d G) = k G whenever i + j d = k modulo q |
| `G12s.Sign` | src/crypto/g12s.c:823-906 | the signature of the first draw with x(k G) mod q not 0: its two halves are the big-endian r and r d + k e mod q; s = 0 is not retried |
| `G12s.Verify` | src/crypto/g12s.c:930-1010 | the verdict as a function of its inputs |
| `G12s.VerifyExact` | src/crypto/g12s.c:960-1006 | under the key d G, for any octets: accepted exactly when 0 < r, s < q and some k in 1..q-1 has x(k G) mod q = r and s = r d + k e, for the big-endian hash value e; ERR_BAD_PARAMS exactly when s = r d |
| `G12s.SignThenVerify` | src/crypto/g12s.c:869-1010 | a signature made under d is accepted under d G exactly when its s is not 0 |
| `DstuSign.Sign` | src/crypto/dstu.c:916-1022 | the signature of the first usable draw, octet by octet, after draws with a zero x, r or s |
| `DstuSign.Verify` | src/crypto/dstu.c:1034-1131 | the verdict as a function of its inputs, including the padding |
| `DstuSign.VerifyExact` | src/crypto/dstu.c:1065-1125 | under the key -d G, for any octets: accepted exactly when the padding is zero, 0 < r, s < q, and some e in 1..q-1 has s = e + d r and r the low bits of x(e G) h |
| `DstuSign.HashIs` | src/crypto/dstu.c:961-976 | the hash value enters as the number of its first octets modulo 2^m, and 0 as 1 |
| `DstuSign.SignThenVerify` | src/crypto/dstu.c:980-1131 | whatever draw is used, the signature is accepted under the key -d G |
| `Bign96.SubModExact` | src/math/zz/zz_mod.c:109-133 | for a below q the word subtraction is right exactly for b up to a + q, and is not even reduced beyond |
| `Bign96.Sign` | src/crypto/bign96.c:580-672 | the signature of the drawn scalar, built in the output buffer; the refusals, the identifier first |
| `Bign96.Sign2` | src/crypto/bign96.c:688-806 | the signature of the first encryption of the hash value that is a scalar, with a running round counter; the refusals |
| `Bign96.Verify` | src/crypto/bign96.c:816-905 | the verdict as a function of its inputs, the identifier of the hash algorithm among them |
| `Bign96.SignThenVerify` | src/crypto/bign96.c:638-905 | the signature is accepted exactly when H is at most (k - s0 d mod q) + q, in particular for every H below q |
| `Bign96.VerifyExact` | src/crypto/bign96.c:860-905 | under the key d G, for any octets: accepted exactly when s1 < q and, for k = s1 + H + (2^103 + s0) d mod q, k is not 0 and the first part is the head of the hash value of the identifier, x(k G) and the signed hash value |
| `Bign96.OidOkIs` | src/crypto/bign96.c:600-602 | which identifiers pass: whole codes with tag 6, among them those of all identifiers in range |
| `Bign96.RefusedSignature` | src/crypto/bign96.c:661-905 | whatever the group, for every H above q and every key a constant hash and k = s0 d mod q make a signature that is then refused |
| `Mem.IsDisjoint2` | src/core/mem.c:339-347 | TRUE exactly when no octet lies in both regions |
| `Mem.Move` | src/core/mem.c:66-72 | a move within one memory, overlapping or not |
| `Mem.Join` | src/core/mem.c:369-427 | dest holds the old src1 and then the old src2 for every overlap of the three regions; nothing else changes |
| `Mem.StillUnread` | src/core/mem.c:406-424 | the two octets written by a round of the loop are none that it still has to read |
| `Apdu.Enc` | src/core/apdu.c:39-123 | writes the code, or counts it without a buffer |
| `Apdu.Dec` | src/core/apdu.c:125-207 | reads a code with its cursor and remaining count |
| `Apdu.CodeCases` | src/core/apdu.c:39-123 | the header, Lc with the data and Le in the seven cases of the standard |
| `Apdu.EncThenDec` | src/core/apdu.c:39-207 | every valid command is read back from its code |
| `Apdu.DecThenEnc` | src/core/apdu.c:125-207 | an accepted code is valid and is written again exactly when it has no needlessly extended Lc |
| `Der.TIsValid` | src/core/der.c:35-68 | decides which tags may be encoded |
| `Der.TagShape` | src/core/der.c:35-68 | the tags that may be encoded, octet by octet, for all 32-bit tags |
| `Der.TagExact` | src/core/der.c:35-68 | a tag may be encoded exactly when it is well-formed in the sense of X.690 and its number, if it is a long tag, is not below 31 when read in the reverse order of its octets |
| `Der.TagRead` | src/core/der.c:110-147 | a tag followed by anything is read exactly when it is well-formed and has at most three octets |
| `Der.TEnc` | src/core/der.c:82-108 | writes the octets of a valid tag, or counts them |
| `Der.TDec` | src/core/der.c:110-147 | reads a tag; where the code answers 0 the tag keeps its previous value |
| `Der.TagReadBack` | src/core/der.c:82-147 | a valid tag is read back exactly when it has at most three octets |
| `Der.LEnc` | src/core/der.c:155-184 | writes the octets of a length, or counts them |
| `Der.LDec` | src/core/der.c:186-221 | reads a length |
| `Der.LenShape` | src/core/der.c:155-184 | the octets of a length: one below 128, otherwise a count and the number without leading zeros |
| `Der.LenReadBack` | src/core/der.c:155-221 | a length is read back from its code |
| `Der.LenCanonical` | src/core/der.c:186-221 | every code that is read is the one code of its length |
| `Der.TlvReadBack` | src/core/der.c:285-397 | a tagged value is read back, whatever follows |
| `Der.TlvCanonical` | src/core/der.c:366-397 | a tagged value that is read has no other code |
| `Der.Enc` | src/core/der.c:285-310 | writes tag, length and value, the value first |
| `Der.EncMove` | src/core/der.c:285-310 | the same for a value that lies in the output buffer |
| `Der.SizeEnc` | src/core/der.c:433-462 | writes a size, or counts its octets |
| `Der.SizeReadBack` | src/core/der.c:433-502 | a size is read back |
| `Der.UintEnc` | src/core/der.c:524-551 | writes a number of any length, reversing it in place |
| `Der.UintNumber` | src/core/der.c:524-551 | the octets of a number hold it with the highest first, with a leading zero only in front of a set top bit |
| `Der.UintReadBack` | src/core/der.c:524-586 | a number is read back without its leading zeros |
| `Der.SizeCanonical` | src/core/der.c:464-502 | a code that the reader of sizes accepts is the one the writer makes exactly when its length is not 0; the length 0 is read as the number 0 |
| `Oid.IsValid` | src/core/oid.c:28-82 | the scan accepts exactly the strings that its specification reads |
| `Oid.ParseExact` | src/core/oid.c:28-82 | a string is accepted exactly when it is the dotted form of numbers in range, which it determines |
| `Oid.SidEnc` | src/core/der.c:762-781 | writes a number in seven bits an octet |
| `Oid.SidNumber` | src/core/der.c:762-781 | the octets of a number: seven bits each, the highest first, all but the last marked, no leading zeros |
| `Oid.Enc` | src/core/der.c:825-868 | the code of the identifier, written in place and then moved behind its header |
| `Oid.Dec` | src/core/der.c:870-924 | builds the string of the numbers that are read |
| `Oid.ReadCanonical` | src/core/der.c:870-924 | an accepted code is that of an identifier exactly when its value is not empty and ends in an octet below 128; otherwise the identifier is made of the whole numbers in front of the unfinished one |
| `Oid.ReadBack` | src/core/der.c:825-924 | every accepted identifier is read back from its code |
| `DerTree.Start` | src/core/der.c:1054-1067 | an empty structure and its anchor |
| `DerTree.Stop` | src/core/der.c:1069-1096 | the value is moved and the real length patched in |
| `DerTree.EncTree` | src/core/der.c:1054-1096 | nested structures and leaves write exactly their DER; the pass without a buffer counts the same octets |
| `DerTree.ReadBack` | src/core/der.c:1054-1131 | every tree is read back from its DER, up to leading zeros of numbers |
| `DerCanonical.ReadCanonical` | src/core/der.c:1098-1131 | every header of an accepted structure announces exactly the octets behind it, down to the leaves; the code is the DER of the tree that is read exactly when no SIZE inside has length 0 and no identifier inside is empty or unfinished, for tags that can be written |
| `DerTree.CodeDetermines` | src/core/der.c:1098-1131 | two trees of one shape with one code are the same |
| `CmdSig.IsValid` | cmd/core/cmd_sig.c:56-77 | decides the validity of a signature, certificate by certificate |
| `CmdSig.Enc` | cmd/core/cmd_sig.c:79-98 | writes the code of a signature, with a date exactly when it is not zero |
| `CmdSig.Dec` | cmd/core/cmd_sig.c:100-134 | reads a code part by part |
| `CmdSig.ChainExact` | cmd/core/cmd_sig.c:56-77 | the chains are the strings of certificates, each as long as the check says, in one way only |
| `CmdSig.ReadCanonical` | cmd/core/cmd_sig.c:100-134 | an accepted code is the DER of a valid signature, or that with a date of zeros written out |
| `CmdSig.ReadBack` | cmd/core/cmd_sig.c:79-134 | a valid signature is read back from its code |
| `CmdSig.Append` | cmd/core/cmd_sig.c:167-190 | the file is followed by the reversed code |
| `CmdSig.ReadSig` | cmd/core/cmd_sig.c:192-249 | reads the suffix, then the code it announces |
| `CmdSig.FileCanonical` | cmd/core/cmd_sig.c:192-249 | a file whose signature is read ends in the reversed octets of such a code |
| `CmdSig.AppendThenRead` | cmd/core/cmd_sig.c:167-249 | behind any body a valid signature is read back with the exact length of its code |
| `CmdSig.Hash` | cmd/core/cmd_sig.c:262-329 | collects the file without its last octets, the certificates and the date |
| `CmdSig.SameHashed` | cmd/core/cmd_sig.c:167-329 | the verifier of a signed file hashes what the signer hashed: body, certificates and date |
| `CmdSig.HashBinds` | cmd/core/cmd_sig.c:262-329 | equal collected data of parts of equal lengths comes from equal parts |
| `Bpki.KeyReadBack` | src/crypto/bpki.c:80-216 | a key or a partial secret of a legal length is read back from its PrivateKeyInfo |
| `Bpki.DataReadBack` | src/crypto/bpki.c:230-306 | data, salt and iterations are read back from an EncryptedPrivateKeyInfo |
| `Bpki.KeyCanonical` | src/crypto/bpki.c:110-216 | an accepted key code announces its own lengths, is of the right kind, has parameters that fit the key, and is the writer's exactly when it is clean |
| `Bpki.DataCanonical` | src/crypto/bpki.c:268-306 | the same of the container of encrypted data |
| `Bpki.EdataEnc` | src/crypto/bpki.c:230-267 | with the data at the end of the same buffer the container is complete: what is written in front never reaches the data |
| `Bpki.Wrap` | src/crypto/bpki.c:314-486 | the buffer holds the container of the encrypted key code, built in overlapping parts; the length without a buffer; the refusals |
| `Bpki.WrapThenUnwrap` | src/crypto/bpki.c:314-560 | what was wrapped is unwrapped under the same password |
| `Bpki.UnwrapExact` | src/crypto/bpki.c:373-560 | a key that is returned comes from a whole container and a whole key code of this kind that the protection released |
| `Bpki.UnwrapRefuses` | src/crypto/bpki.c:373-560 | octets behind the container, a token that is not released and a key of the other kind are refused |
| `Rng.Reachable` | src/core/rng.c:695-791 | every interleaving keeps the invariant of the trigger, the mutex and the counter |
| `Rng.InitializedOnce` | src/core/mt.c:155-172 | the initialization starts at most once, no thread is past it before it has finished, and a thread only locks a mutex that exists |
| `Rng.SpinsForAnother` | src/core/mt.c:158-168 | a thread repeats the compare-and-swap only while another runs the initialization |
| `Rng.CountsReferences` | src/core/rng.c:710-791 | the counter is successful creates minus closes, also after failed creates; with the mutex free the state exists exactly when the counter is positive |
| `Rng.CreateOutcome` | src/core/rng.c:710-765 | in every interleaving a create with a positive counter succeeds, with the counter 0 it succeeds exactly when both answers of the environment are favourable and otherwise leaves nothing behind, and it is given up exactly when the initialization has failed |
| `Rng.AloneCreatesAndCloses` | src/core/rng.c:695-791 | alone and with favourable answers a create ends with the generator and a close takes it away |
| `Rng.HeldIsValid` | src/core/rng.c:767-791 | a close always finds a positive counter, and a thread that holds the generator is told that it is valid |
| `Rng.MutualExclusion` | src/core/rng.c:710-791 | two threads are never in the protected parts together |

## Left out
- Ec.MulA: the points form an abelian group by hypothesis; that the affine law of `EcpPoints` and `Ec2Points` is associative is not proved (closure, neutral element and the equality of the fast forms are).
- Bels.ShareThenRecover: pairwise coprimality of the public keys is a hypothesis, as it is for the callers of `belsRecover`.
- BelsStd.Share2ThenRecover2: that the standard polynomials are irreducible is a hypothesis; it is not computed. `belsShare2` and `belsRecover2` repeat the loops of `belsShare` and `belsRecover`, and the model calls these. The generator of `belsShare3` is not modelled.
- Rng.CountsReferences: the counter is unbounded, and the destructor that runs at process exit is not modelled.
- Bign96.Sign2: that encrypting the hash value reaches a scalar is a hypothesis about the cipher, with a bound that only the proof of termination uses.
- Bign96.Verify: a public key with coordinates in the field is taken for a point of the group; keys off the curve, which the code does not check for, are not modelled.
- G12s.Verify: the same of its keys.
- DstuSign.Verify: the same of its keys.
- BakeBmqv.Bmqv.Start: the checks of pointers and of the curve parameters are not modelled; the state starts from sound parameters.
- DstuSign.Sign: the code draws for ever; the model answers `Running` when a finite list of draws is used up.
- Der.SizeReadBack: where `derTSIZEDec` or a wrapped sum of lengths would read past the code the readers answer `Overrun`; what is read there is not modelled. Tags have 32 bits and lengths 64.
- Bpki.WrapThenUnwrap: KWP unwrapping inverts wrapping by hypothesis; the readers compare identifiers after a structure is read, not while reading it; a rejected container is not told apart further.
- CmdSig.AppendThenRead: a file is its contents; opening, seeking and reading errors, and a file that changes between calls, are not modelled.
- BakeBsts.Run: the state keeps points as points; that `bakeBSTSStep4` turns the buffer of Vb into octets in place is not modelled.
- BakeBmqv.SameKey: a collision of the hash function or of key derivation is the other outcome, here and for the other two protocols; nothing is assumed about how hard one is to find.
- BakeBsts.OpenExact: that CFB encryption inverts decryption as well, and keeps octets, is a hypothesis.
- BakeBpace.Run: that `bakeSWU` yields a nonzero point of the group is a hypothesis there; `EcpSwu` shows when its map does.
- Ecp.TplJ: where the tangent is not defined the formula gives O and not the triple; `ecpIsValid` excludes this by refusing singular curves.
- `derOIDDec2` is modelled by its result, comparing the identifier that was read.
- BIT STRING and PrintableString codes, certificate requests, APDU responses and subtraction in Lopez-Dahab coordinates would add only easy members.
- Field elements are numbers below the modulus: Montgomery and Crandall representations, and the words of `zz`, `ww` and `pp` outside reduction and recoding, are not modelled.
- Secrecy, constant-time behaviour, wiping, stack sizes and allocation failures are not modelled.
- Entropy sources, statistical tests, command front ends, parameter generation and primality tests are not modelled.
- `ec2SeemsValidGroup`, pointer relocation in `obj.c` and the comparison in `word.c` do not do what their names say and are not modelled.
