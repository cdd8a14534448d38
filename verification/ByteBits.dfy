/** Single bits of byte strings, least significant bit first. */
module ByteBits {

  function Mask(k: nat): bv8
    requires k < 8
  {
    [1 as bv8, 2, 4, 8, 16, 32, 64, 128][k]
  }

  predicate Has(b: bv8, k: nat)
    requires k < 8
  {
    b & Mask(k) != 0
  }

  /** Bit p of a byte string. */
  predicate BitAt(bytes: seq<bv8>, p: nat)
    requires p < 8 * |bytes|
  {
    Has(bytes[p / 8], p % 8)
  }

  lemma MaskOr(b: bv8, j: nat, k: nat)
    requires j < 8 && k < 8
    ensures Has(b | Mask(j), k) <==> (j == k || Has(b, k))
  {
  }

  lemma MaskAnd(b: bv8, j: nat, k: nat)
    requires j < 8 && k < 8
    ensures Has(b & !Mask(j), k) <==> (j != k && Has(b, k))
  {
  }

  lemma SamePlace(p: nat, q: nat)
    ensures p == q <==> p / 8 == q / 8 && p % 8 == q % 8
  {
  }

  lemma SetOne(bytes: seq<bv8>, p: nat, q: nat)
    requires p < 8 * |bytes| && q < 8 * |bytes|
    ensures BitAt(bytes[p / 8 := bytes[p / 8] | Mask(p % 8)], q) <==> (q == p || BitAt(bytes, q))
  {
    hide Mask, Has;
    MaskOr(bytes[p / 8], p % 8, q % 8);
    SamePlace(p, q);
  }

  lemma ClearOne(bytes: seq<bv8>, p: nat, q: nat)
    requires p < 8 * |bytes| && q < 8 * |bytes|
    ensures BitAt(bytes[p / 8 := bytes[p / 8] & !Mask(p % 8)], q) <==> (q != p && BitAt(bytes, q))
  {
    hide Mask, Has;
    MaskAnd(bytes[p / 8], p % 8, q % 8);
    SamePlace(p, q);
  }

  lemma AllOnes(bytes: seq<bv8>, p: nat)
    requires p < 8 * |bytes| && bytes[p / 8] == 0xFF
    ensures BitAt(bytes, p)
  {
  }
}
