/**
 * The request-n flow-control rule shared by the REQUEST_N and REQUEST_CHANNEL
 * frames: a logical `long` demand of at least 1 is clamped into the wire's
 * 32-bit field, and the largest wire value reads back as "unbounded".
 */
module Credit {
  import opened Wire

  /** The wire credit for a demand the encoders have already checked to be at least 1. */
  function Saturate(n: Int64): (w: Int32)
    requires n >= 1
    ensures 1 <= w <= n
    ensures w == n || w == INT_MAX
  {
    if n > INT_MAX then INT_MAX else n
  }

  /** The logical demand a wire credit stands for; INT_MAX is the unbounded sentinel. */
  function Promote(w: Int32): (n: Int64)
    ensures n >= w
    ensures n == w || n == LONG_MAX
    ensures n == LONG_MAX <==> w == INT_MAX
  {
    if w == INT_MAX then LONG_MAX else w
  }

  /** Saturation then promotion is the identity below INT_MAX and unbounded from there on. */
  lemma PromoteSaturate(n: Int64)
    requires n >= 1
    ensures n < INT_MAX ==> Promote(Saturate(n)) == n
    ensures n >= INT_MAX ==> Promote(Saturate(n)) == LONG_MAX
  {
  }

  /** Re-encoding a decoded positive wire credit gives back the same wire credit. */
  lemma SaturatePromote(w: Int32)
    requires w >= 1
    ensures Saturate(Promote(w)) == w
  {
  }

  /** Distinct wire credits decode to distinct demands. */
  lemma PromoteInjective(v: Int32, w: Int32)
    ensures Promote(v) == Promote(w) ==> v == w
  {
  }
}
