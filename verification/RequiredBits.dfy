/** The two 32-bit words in which `pb_decode_inner` remembers the required fields it saw. */
module RequiredBits {
  import opened Wire
  import opened Schema
  import opened Decoding

  const WORD := 32

  function Pow2(n: nat): (p: nat)
    ensures p >= 1
  {
    if n == 0 then 1 else 2 * Pow2(n - 1)
  }

  /** `w | 1 << k`. */
  function SetBit(w: nat, k: nat): nat {
    if k == 0 then w - w % 2 + 1 else w % 2 + 2 * SetBit(w / 2, k - 1)
  }

  /** The word with these bits, lowest first. */
  function FromBits(bits: seq<bool>): nat {
    if bits == [] then 0 else (if bits[0] then 1 else 0) + 2 * FromBits(bits[1..])
  }

  /** The lowest `r` of `n` bits set. */
  function Ones(r: nat, n: nat): (bits: seq<bool>)
    ensures |bits| == n
  {
    seq(n, k => k < r)
  }

  lemma {:induction false} SetBitCorrect(bits: seq<bool>, k: nat)
    requires k < |bits|
    ensures SetBit(FromBits(bits), k) == FromBits(bits[k := true])
  {
    var bits' := bits[k := true];
    if k == 0 {
      assert bits'[1..] == bits[1..];
    } else {
      SetBitCorrect(bits[1..], k - 1);
      assert bits'[1..] == bits[1..][k - 1 := true];
    }
  }

  lemma {:induction false} FromBitsInjective(a: seq<bool>, b: seq<bool>)
    requires |a| == |b| && FromBits(a) == FromBits(b)
    ensures a == b
  {
    if a != [] {
      FromBitsInjective(a[1..], b[1..]);
      assert a == [a[0]] + a[1..] && b == [b[0]] + b[1..];
    }
  }

  /** `allbits >> (n - r)`. */
  lemma {:induction false} OnesValue(r: nat, n: nat)
    requires r <= n
    ensures FromBits(Ones(r, n)) == Pow2(r) - 1
  {
    if n > 0 {
      var tail := Ones(if r == 0 then 0 else r - 1, n - 1);
      assert Ones(r, n)[1..] == tail;
      OnesValue(if r == 0 then 0 else r - 1, n - 1);
    }
  }

  /** Some field in `seen` is the required field number `n`. */
  ghost predicate SeenAt(d: Desc, seen: set<nat>, n: nat) {
    exists i :: i in seen && i < |d.fields| && RequiredIndex(d, i) == n
  }

  ghost function SeenBits(d: Desc, seen: set<nat>, from: nat): (bits: seq<bool>)
    ensures |bits| == WORD
  {
    seq(WORD, k requires 0 <= k => SeenAt(d, seen, from + k))
  }

  /** What the two words hold after the fields in `seen`. */
  ghost predicate Tracks(d: Desc, words: seq<nat>, seen: set<nat>) {
    && |words| == 2
    && words[0] == FromBits(SeenBits(d, seen, 0))
    && words[1] == FromBits(SeenBits(d, seen, WORD))
    && forall i :: i in seen ==> i < |d.fields| && d.fields[i].htype.Required?
  }

  lemma {:induction false} NothingTracked(d: Desc)
    ensures Tracks(d, [0, 0], {})
  {
    assert SeenBits(d, {}, 0) == Ones(0, WORD) == SeenBits(d, {}, WORD);
    OnesValue(0, WORD);
  }

  lemma {:induction false} RequiredIndexMonotone(d: Desc, i: nat, j: nat)
    requires i <= j <= |d.fields|
    ensures RequiredIndex(d, i) <= RequiredIndex(d, j)
    ensures i < j && d.fields[i].htype.Required? ==> RequiredIndex(d, i) < RequiredIndex(d, j)
    decreases j
  {
    if i < j {
      RequiredIndexMonotone(d, i, j - 1);
    }
  }

  /** Required fields have different indexes. */
  lemma {:induction false} RequiredIndexInjective(d: Desc, i: nat, j: nat)
    requires i < |d.fields| && j < |d.fields| && d.fields[i].htype.Required? && d.fields[j].htype.Required?
    requires RequiredIndex(d, i) == RequiredIndex(d, j)
    ensures i == j
  {
    if i < j {
      RequiredIndexMonotone(d, i, j);
    } else if j < i {
      RequiredIndexMonotone(d, j, i);
    }
  }

  /** Every index below the count belongs to a required field. */
  lemma {:induction false} RequiredAt(d: Desc, n: nat, upto: nat) returns (i: nat)
    requires upto <= |d.fields| && n < RequiredIndex(d, upto)
    ensures i < upto && d.fields[i].htype.Required? && RequiredIndex(d, i) == n
  {
    if n < RequiredIndex(d, upto - 1) {
      i := RequiredAt(d, n, upto - 1);
    } else {
      i := upto - 1;
    }
  }

  /** Marking a field in its word. */
  method Mark(d: Desc, i: nat, words: seq<nat>, ghost seen: set<nat>) returns (words': seq<nat>)
    requires i < |d.fields| && d.fields[i].htype.Required? && Tracks(d, words, seen)
    ensures Tracks(d, words', seen + {i})
  {
    var index := RequiredIndex(d, i);
    words' := words;
    if index < MAX_REQUIRED_FIELDS {
      words' := words[index / 32 := SetBit(words[index / 32], index % 32)];
    }
    MarkBits(d, i, seen, 0);
    MarkBits(d, i, seen, WORD);
    if index < WORD {
      SetBitCorrect(SeenBits(d, seen, 0), index);
    } else if index < 2 * WORD {
      SetBitCorrect(SeenBits(d, seen, WORD), index - WORD);
    }
  }

  /** The bits of one word once field number `n` has been marked too. */
  ghost function Marked(bits: seq<bool>, from: nat, n: nat): seq<bool>
    requires |bits| == WORD
  {
    if from <= n < from + WORD then bits[n - from := true] else bits
  }

  lemma {:induction false} SeenAtMarked(d: Desc, i: nat, seen: set<nat>, n: nat)
    requires i < |d.fields|
    ensures SeenAt(d, seen + {i}, n) <==> SeenAt(d, seen, n) || n == RequiredIndex(d, i)
  {
    assert i in seen + {i};
    if SeenAt(d, seen, n) {
      var j :| j in seen && j < |d.fields| && RequiredIndex(d, j) == n;
      assert j in seen + {i};
    }
  }

  lemma {:induction false} MarkBits(d: Desc, i: nat, seen: set<nat>, from: nat)
    requires i < |d.fields|
    ensures SeenBits(d, seen + {i}, from) == Marked(SeenBits(d, seen, from), from, RequiredIndex(d, i))
  {
    var after, expected := SeenBits(d, seen + {i}, from), Marked(SeenBits(d, seen, from), from, RequiredIndex(d, i));
    forall k: nat | k < WORD ensures after[k] == expected[k] {
      SeenAtMarked(d, i, seen, from + k);
    }
  }

  /** All required numbers below the tracked limit are seen. */
  ghost predicate AllSeenBelow(d: Desc, seen: set<nat>, limit: nat) {
    forall n :: 0 <= n < limit ==> SeenAt(d, seen, n)
  }

  /** The check of one word, behind words that passed: its lowest `r` bits are set and no others. */
  lemma {:induction false} WordCheck(d: Desc, seen: set<nat>, from: nat, r: nat)
    requires r <= WORD && AllSeenBelow(d, seen, from)
    requires r == WORD || forall n :: from + r <= n < from + WORD ==> !SeenAt(d, seen, n)
    ensures FromBits(SeenBits(d, seen, from)) == Pow2(r) - 1 <==> AllSeenBelow(d, seen, from + r)
  {
    var bits := SeenBits(d, seen, from);
    OnesValue(r, WORD);
    if FromBits(bits) == Pow2(r) - 1 {
      FromBitsInjective(bits, Ones(r, WORD));
      forall n | from <= n < from + r ensures SeenAt(d, seen, n) {
        assert bits[n - from];
      }
    }
    if AllSeenBelow(d, seen, from + r) {
      assert bits == Ones(r, WORD);
    }
  }

  /** `required_field_count`, cut off at the number of fields tracked. */
  function TrackedCount(d: Desc): (n: nat)
    ensures n <= MAX_REQUIRED_FIELDS
  {
    var count := RequiredIndex(d, |d.fields|);
    if count > MAX_REQUIRED_FIELDS then MAX_REQUIRED_FIELDS else count
  }

  lemma {:induction false} AllSeenIsRequiredSeen(d: Desc, seen: set<nat>)
    requires forall i :: i in seen ==> i < |d.fields| && d.fields[i].htype.Required?
    ensures AllSeenBelow(d, seen, TrackedCount(d)) <==> RequiredSeen(d, seen)
  {
    if AllSeenBelow(d, seen, TrackedCount(d)) {
      forall i | 0 <= i < |d.fields| && d.fields[i].htype.Required? && RequiredIndex(d, i) < MAX_REQUIRED_FIELDS
        ensures i in seen
      {
        RequiredIndexMonotone(d, i, |d.fields|);
        assert SeenAt(d, seen, RequiredIndex(d, i));
        var j :| j in seen && j < |d.fields| && RequiredIndex(d, j) == RequiredIndex(d, i);
        RequiredIndexInjective(d, i, j);
      }
    }
    if RequiredSeen(d, seen) {
      forall n | 0 <= n < TrackedCount(d) ensures SeenAt(d, seen, n) {
        var i := RequiredAt(d, n, |d.fields|);
      }
    }
  }

  /** No field is numbered past the count. */
  lemma {:induction false} NotSeenPastCount(d: Desc, seen: set<nat>, n: nat)
    requires forall i :: i in seen ==> i < |d.fields| && d.fields[i].htype.Required?
    requires n >= RequiredIndex(d, |d.fields|)
    ensures !SeenAt(d, seen, n)
  {
    if SeenAt(d, seen, n) {
      var i :| i in seen && i < |d.fields| && RequiredIndex(d, i) == n;
      RequiredIndexMonotone(d, i, |d.fields|);
    }
  }

  /** The check of word `w` against its lowest `r` bits, behind words that passed. */
  lemma {:induction false} WordPasses(d: Desc, words: seq<nat>, seen: set<nat>, w: nat, r: nat)
    requires Tracks(d, words, seen) && w < 2 && r <= WORD && AllSeenBelow(d, seen, WORD * w)
    requires WORD * w + r <= TrackedCount(d) && (r < WORD ==> WORD * w + r == TrackedCount(d))
    ensures words[w] == Pow2(r) - 1 <==> AllSeenBelow(d, seen, WORD * w + r)
    ensures RequiredSeen(d, seen) ==> AllSeenBelow(d, seen, WORD * w + r)
  {
    if r < WORD {
      forall n | WORD * w + r <= n < WORD * w + WORD ensures !SeenAt(d, seen, n) {
        NotSeenPastCount(d, seen, n);
      }
    }
    WordCheck(d, seen, WORD * w, r);
    AllSeenIsRequiredSeen(d, seen);
  }

  /** The check after the loop: whole words against all ones, the rest against a mask. It
      agrees with the set of required fields seen. */
  method CheckRequired(d: Desc, words: seq<nat>, ghost seen: set<nat>) returns (ok: bool)
    requires Tracks(d, words, seen)
    ensures ok <==> RequiredSeen(d, seen)
  {
    var count := TrackedCount(d);
    AllSeenIsRequiredSeen(d, seen);
    var whole, rest := count / 32, count % 32;
    assert count == WORD * whole + rest && whole <= 2;
    var i := 0;
    while i < whole
      invariant 0 <= i <= whole
      invariant AllSeenBelow(d, seen, WORD * i)
    {
      WordPasses(d, words, seen, i, WORD);
      if words[i] != Pow2(32) - 1 {
        return false;
      }
      i := i + 1;
    }
    if rest != 0 {
      WordPasses(d, words, seen, whole, rest);
      if words[whole] != Pow2(rest) - 1 {
        return false;
      }
    }
    return true;
  }
}
