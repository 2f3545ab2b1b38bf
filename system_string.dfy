/** The string buffers of teeuniverses/system/string.h and the C string
    helpers they are built on.

    A C string is modelled by the characters before its terminator, so a
    `string` here never stands for a NUL character. A buffer's contents are
    such a string; its capacity (`maxsize()`) counts the terminator, so a
    buffer of capacity `n` holds at most `n - 1` characters. */
module SystemString {
  import opened CBase

  // ---------------------------------------------------------------------
  // The helpers of base/system used by string.h (str_copy, str_append,
  // str_append_num, str_comp, str_comp_num), with their usual semantics.
  // ---------------------------------------------------------------------

  /** `str_copy(dst, src, size)`: at most `size - 1` characters of `src`. */
  function StrCopy(src: string, size: int): (r: string)
    requires size >= 1
    ensures |r| < size
    ensures r <= src
    ensures |src| < size ==> r == src
  {
    src[..Min(|src|, size - 1)]
  }

  /** `str_append(dst, src, size)`: `src` is appended after the existing
      terminator, keeping the result below `size` characters. */
  function StrAppend(dst: string, src: string, size: int): (r: string)
    requires |dst| < size
    ensures |dst| <= |r| < size
    ensures r[..|dst|] == dst
    ensures r[|dst|..] <= src
    ensures |dst| + |src| < size ==> r == dst + src
  {
    dst + src[..Min(|src|, size - 1 - |dst|)]
  }

  /** `str_append_num(dst, src, size, num)`: like `str_append`, but at most
      `num` characters of `src` are taken. */
  function StrAppendNum(dst: string, src: string, size: int, num: int): (r: string)
    requires |dst| < size
    ensures |dst| <= |r| < size
    ensures r[..|dst|] == dst
    ensures r[|dst|..] <= src
    ensures |r| - |dst| <= if num < 0 then 0 else num
    ensures 0 <= num && |dst| + num < size && num <= |src| ==> r == dst + src[..num]
  {
    var n := if num < 0 then 0 else Min(num, |src|);
    dst + src[..Min(n, size - 1 - |dst|)]
  }

  /** `str_comp` (strcmp): only the sign of the result is used by callers,
      so the model returns -1, 0 or 1. */
  function StrComp(a: string, b: string): (r: int)
    ensures -1 <= r <= 1
    ensures r == 0 <==> a == b
  {
    if a == [] then (if b == [] then 0 else -1)
    else if b == [] then 1
    else if a[0] < b[0] then -1
    else if a[0] > b[0] then 1
    else
      var r := StrComp(a[1..], b[1..]);
      assert a == [a[0]] + a[1..] && b == [b[0]] + b[1..];
      r
  }

  /** The first `n` characters of `s` (all of it when it is shorter). */
  function Prefix(s: string, n: int): string {
    if n <= 0 then [] else s[..Min(|s|, n)]
  }

  /** The characters `str_comp_num` compares: the first `n`, or all of
      them when a negative `n` converts to a huge `size_t`. */
  function Compared(s: string, n: int): string {
    if n < 0 then s else Prefix(s, n)
  }

  /** `str_comp_num` (strncmp): compares at most `n` characters; a
      negative `n`, converted to `size_t`, bounds nothing, so the whole
      strings are compared as by `str_comp`. */
  function StrCompNum(a: string, b: string, n: int): (r: int)
    ensures -1 <= r <= 1
    ensures r == 0 <==> Compared(a, n) == Compared(b, n)
    ensures n < 0 ==> r == StrComp(a, b)
    decreases if n < 0 then 0 else n
  {
    if n < 0 then StrComp(a, b)
    else if n == 0 then 0
    else if a == [] then (if b == [] then 0 else -1)
    else if b == [] then 1
    else if a[0] < b[0] then -1
    else if a[0] > b[0] then 1
    else
      var r := StrCompNum(a[1..], b[1..], n - 1);
      assert Prefix(a, n) == [a[0]] + Prefix(a[1..], n - 1);
      assert Prefix(b, n) == [b[0]] + Prefix(b[1..], n - 1);
      r
  }

  /** Lexicographic order on strings, stated without recursion: either `a`
      is a proper prefix of `b`, or at the first position where they
      differ `a` has the smaller character. */
  ghost predicate LexLess(a: string, b: string) {
    exists k :: 0 <= k <= |a| && k < |b| && a[..k] == b[..k] && (k == |a| || a[k] < b[k])
  }

  /** `str_comp` orders strings lexicographically. */
  lemma {:induction false} StrCompIsLexicographic(a: string, b: string)
    ensures StrComp(a, b) < 0 <==> LexLess(a, b)
    decreases |a|
  {
    if a == [] {
      if b != [] {
        assert a[..0] == b[..0];
      }
    } else if b == [] {
    } else if a[0] < b[0] {
      assert a[..0] == b[..0];
    } else if a[0] > b[0] {
      if LexLess(a, b) {
        var k :| 0 <= k <= |a| && k < |b| && a[..k] == b[..k] && (k == |a| || a[k] < b[k]);
        if k > 0 {
          assert a[..k][0] == b[..k][0];
        }
      }
    } else {
      StrCompIsLexicographic(a[1..], b[1..]);
      LexLessTail(a, b);
    }
  }

  /** Strings that start alike are ordered as their tails are. */
  lemma LexLessTail(a: string, b: string)
    requires a != [] && b != [] && a[0] == b[0]
    ensures LexLess(a, b) <==> LexLess(a[1..], b[1..])
  {
    if LexLess(a, b) {
      var k :| 0 <= k <= |a| && k < |b| && a[..k] == b[..k] && (k == |a| || a[k] < b[k]);
      LexLessDrop(a, b, k);
    }
    if LexLess(a[1..], b[1..]) {
      var k :| 0 <= k <= |a[1..]| && k < |b[1..]| && a[1..][..k] == b[1..][..k]
               && (k == |a[1..]| || a[1..][k] < b[1..][k]);
      LexLessPrepend(a, b, k);
    }
  }

  /** A witness that `a` sorts before `b` gives one for their tails. */
  lemma LexLessDrop(a: string, b: string, k: int)
    requires a != [] && b != [] && a[0] == b[0]
    requires 0 <= k <= |a| && k < |b| && a[..k] == b[..k] && (k == |a| || a[k] < b[k])
    ensures LexLess(a[1..], b[1..])
  {
    assert k > 0;
    var ta, tb := a[1..], b[1..];
    assert ta[..k - 1] == a[..k][1..];
    assert tb[..k - 1] == b[..k][1..];
    assert k - 1 == |ta| || ta[k - 1] < tb[k - 1];
  }

  /** A witness that the tails are ordered gives one for `a` and `b`. */
  lemma LexLessPrepend(a: string, b: string, k: int)
    requires a != [] && b != [] && a[0] == b[0]
    requires 0 <= k <= |a| - 1 && k < |b| - 1 && a[1..][..k] == b[1..][..k]
    requires k == |a| - 1 || a[1..][k] < b[1..][k]
    ensures LexLess(a, b)
  {
    assert a[..k + 1] == [a[0]] + a[1..][..k];
    assert b[..k + 1] == [b[0]] + b[1..][..k];
    assert k + 1 == |a| || a[k + 1] < b[k + 1];
  }

  /** Swapping the operands of `str_comp` flips the sign of its result. */
  lemma {:induction false} StrCompAntisymmetric(a: string, b: string)
    ensures StrComp(b, a) == -StrComp(a, b)
    decreases |a|
  {
    if a != [] && b != [] && a[0] == b[0] {
      StrCompAntisymmetric(a[1..], b[1..]);
    }
  }

  // ---------------------------------------------------------------------
  // The comparison operators of the `string<>` wrapper (string.h, lines
  // 216-269), on the wrapped buffer's contents `s`.
  // ---------------------------------------------------------------------

  /** `operator<`. */
  function Less(s: string, p: string): (r: bool)
    ensures r <==> LexLess(s, p)
  {
    StrCompIsLexicographic(s, p);
    StrComp(s, p) < 0
  }

  /** `operator>`. */
  function Greater(s: string, p: string): (r: bool)
    ensures r <==> LexLess(p, s)
  {
    StrCompAntisymmetric(s, p);
    StrCompIsLexicographic(p, s);
    StrComp(s, p) > 0
  }

  /** `operator==`. */
  function Equals(s: string, p: string): (r: bool)
    ensures r <==> s == p
  {
    StrComp(s, p) == 0
  }

  /** `operator!=`. */
  function NotEquals(s: string, p: string): (r: bool)
    ensures r <==> s != p
  {
    StrComp(s, p) != 0
  }

  /** `comp_num`: 0 when the first `num` characters agree, 1 otherwise. */
  function CompNum(s: string, p: string, num: int): (r: int)
    ensures r == 0 || r == 1
    ensures r == 0 <==> Compared(s, num) == Compared(p, num)
  {
    if StrCompNum(s, p, num) != 0 then 1 else 0
  }

  /** Capacity after the doubling loop of `append_at` / `append_at_num`:
      `m` doubled until it reaches `need`. */
  function Grown(m: int, need: int): (r: int)
    requires m >= 1
    ensures r >= m && r >= need
    ensures r > m ==> r < 2 * need
    decreases need - m
  {
    if need <= m then m else Grown(2 * m, need)
  }

  function Pow2(k: nat): (r: nat)
    ensures r >= 1
  {
    if k == 0 then 1 else 2 * Pow2(k - 1)
  }

  /** The grown capacity is the old one times a power of two. */
  lemma {:induction false} GrownIsDoubling(m: int, need: int)
    requires m >= 1
    ensures exists k: nat :: Grown(m, need) == m * Pow2(k)
    decreases need - m
  {
    if need <= m {
      assert Grown(m, need) == m * Pow2(0);
    } else {
      GrownIsDoubling(2 * m, need);
      var k: nat :| Grown(2 * m, need) == 2 * m * Pow2(k);
      assert Grown(m, need) == m * Pow2(k + 1);
    }
  }

  /** `string<_fixed_string_core<SIZE>>`: a string held in a `char[SIZE]`. */
  class FixedString {
    const size: int
    var text: string

    ghost predicate Valid()
      reads this
    {
      1 <= size && |text| < size
    }

    constructor (size: int)
      requires size >= 1
      ensures Valid() && this.size == size && text == []
    {
      this.size := size;
      text := [];
    }

    /** `maxsize()`: always the template size. */
    function MaxSize(): (r: int)
      reads this
      requires Valid()
      ensures r >= 1 && |text| < r
    {
      size
    }

    /** `copy`: truncates to `size - 1` characters. */
    method Copy(p: string)
      requires Valid()
      modifies this
      ensures Valid() && text == StrCopy(p, size)
    {
      text := StrCopy(p, size);
    }

    /** `transfert`: for a fixed string, a copy of the other's contents. */
    method Transfert(other: FixedString)
      requires Valid() && other.Valid()
      modifies this
      ensures Valid() && text == StrCopy(old(other.text), size)
    {
      text := StrCopy(other.text, size);
    }

    /** `append_at(Pos, p)`: `str_append(m_aBuffer + Pos, p, SIZE - Pos)`.
        Relative to `Pos` the limit is `SIZE - Pos - 1` characters, which is
        `SIZE - 1` for the whole buffer. */
    method AppendAt(pos: int, p: string)
      requires Valid() && 0 <= pos <= |text|
      modifies this
      ensures Valid() && text == StrAppend(old(text), p, size)
    {
      text := StrAppend(text, p, size);
    }

    /** `append_at_num(Pos, p, num)`. */
    method AppendAtNum(pos: int, p: string, num: int)
      requires Valid() && 0 <= pos <= |text|
      modifies this
      ensures Valid() && text == StrAppendNum(old(text), p, size, num)
    {
      text := StrAppendNum(text, p, size, num);
    }

    /** `length()`. */
    function Length(): (r: nat)
      reads this
      requires Valid()
      ensures r < size
    {
      |text|
    }

    /** `empty()`: the first character is the terminator. */
    function Empty(): (r: bool)
      reads this
      requires Valid()
      ensures r <==> Length() == 0
    {
      text == []
    }

    /** `clear()`. */
    method Clear()
      requires Valid()
      modifies this
      ensures Valid() && Empty() && Length() == 0
    {
      text := [];
    }

    /** `append(p)`: `append_at(length(), p)`. */
    method Append(p: string)
      requires Valid()
      modifies this
      ensures Valid() && text == StrAppend(old(text), p, size)
    {
      AppendAt(|text|, p);
    }
  }

  /** `string<_dynamic_string_core<INITIALSIZE>>`: a string in a heap buffer
      that grows by doubling. `hasBuffer` is false exactly when the buffer
      pointer is NULL, which only `transfert` produces. */
  class DynamicString {
    var hasBuffer: bool
    var text: string
    var maxSize: int

    ghost predicate Valid()
      reads this
    {
      if hasBuffer then 1 <= maxSize && |text| < maxSize
      else maxSize == 0 && text == []
    }

    /** The constructor: `resize_buffer(INITIALSIZE)` on a NULL buffer. */
    constructor (initialSize: int)
      requires initialSize >= 1
      ensures Valid() && hasBuffer && maxSize == initialSize && text == []
    {
      hasBuffer := true;
      maxSize := initialSize;
      text := [];
    }

    /** `resize_buffer(Size)`: a new buffer of `Size` characters holding the
        old contents, truncated by `str_copy`. */
    method ResizeBuffer(size: int)
      requires Valid() && size >= 1
      modifies this
      ensures Valid() && hasBuffer && maxSize == size
      ensures text == StrCopy(old(text), size)
    {
      if hasBuffer {
        text := StrCopy(text, size);
        maxSize := size;
      } else {
        maxSize := size;
        hasBuffer := true;
        text := [];
      }
    }

    /** `maxsize()`. */
    function MaxSize(): (r: int)
      reads this
      requires Valid()
      ensures r >= 0
      ensures r == 0 <==> !hasBuffer
      ensures hasBuffer ==> |text| < r
    {
      maxSize
    }

    /** `copy(p)`: grows to exactly `strlen(p) + 1` when `p` does not fit. */
    method Copy(p: string)
      requires Valid()
      modifies this
      ensures Valid() && hasBuffer && text == p
      ensures maxSize == if |p| + 1 > old(maxSize) then |p| + 1 else old(maxSize)
    {
      var size := |p| + 1;
      if size > maxSize {
        ResizeBuffer(size);
      }
      text := StrCopy(p, maxSize);
    }

    /** `transfert(String)`: takes over the other string's buffer and
        capacity and leaves it with a NULL buffer and capacity 0. On itself
        the string ends up with a NULL buffer. */
    method Transfert(other: DynamicString)
      requires Valid() && other.Valid()
      modifies this, other
      ensures Valid() && other.Valid()
      ensures !other.hasBuffer && other.maxSize == 0 && other.text == []
      ensures other != this ==>
        hasBuffer == old(other.hasBuffer) && text == old(other.text) && maxSize == old(other.maxSize)
    {
      hasBuffer := other.hasBuffer;
      text := other.text;
      maxSize := other.maxSize;
      other.hasBuffer := false;
      other.text := [];
      other.maxSize := 0;
    }

    /** `append_at(Pos, p)`. When `Pos + strlen(p) + 1` exceeds the capacity,
        the capacity is doubled until it fits; `str_append` then appends `p`
        after the current contents, relative limit `maxsize - Pos`. The
        result is `min(Pos + strlen(p), maxsize - 1)`. A zero capacity would
        make the doubling loop run forever, hence `maxSize > 0`. */
    method AppendAt(pos: int, p: string) returns (r: int)
      requires Valid() && maxSize > 0 && 0 <= pos <= |text|
      modifies this
      ensures Valid() && hasBuffer
      ensures maxSize == Grown(old(maxSize), pos + |p| + 1)
      ensures text == StrAppend(old(text), p, maxSize)
      ensures r == Min(pos + |p|, maxSize - 1)
    {
      var bufferSize := |p|;
      var size := pos + bufferSize + 1;
      if size > maxSize {
        var newSize := maxSize * 2;
        while size > newSize
          invariant newSize >= 2
          invariant Grown(maxSize, size) == Grown(newSize, size)
          decreases size - newSize
        {
          newSize := newSize * 2;
        }
        ResizeBuffer(newSize);
      }
      text := StrAppend(text, p, maxSize);
      r := Min(pos + bufferSize, maxSize - 1);
    }

    /** `append_at_num(Pos, p, Num)`: as `append_at`, with at most `Num`
        characters of `p`; the result is `min(Pos + Num, maxsize - 1)`. */
    method AppendAtNum(pos: int, p: string, num: int) returns (r: int)
      requires Valid() && maxSize > 0 && 0 <= pos <= |text|
      modifies this
      ensures Valid() && hasBuffer
      ensures maxSize == Grown(old(maxSize), pos + num + 1)
      ensures text == StrAppendNum(old(text), p, maxSize, num)
      ensures r == Min(pos + num, maxSize - 1)
    {
      var size := pos + num + 1;
      if size > maxSize {
        var newSize := maxSize * 2;
        while size > newSize
          invariant newSize >= 2
          invariant Grown(maxSize, size) == Grown(newSize, size)
          decreases size - newSize
        {
          newSize := newSize * 2;
        }
        ResizeBuffer(newSize);
      }
      text := StrAppendNum(text, p, maxSize, num);
      r := Min(pos + num, maxSize - 1);
    }

    /** `length()`. */
    function Length(): (r: nat)
      reads this
      requires Valid() && hasBuffer
      ensures r < maxSize
    {
      |text|
    }

    /** `empty()`. */
    function Empty(): (r: bool)
      reads this
      requires Valid() && hasBuffer
      ensures r <==> Length() == 0
    {
      text == []
    }

    /** `clear()`. */
    method Clear()
      requires Valid() && hasBuffer
      modifies this
      ensures Valid() && hasBuffer && maxSize == old(maxSize)
      ensures Empty() && Length() == 0
    {
      text := [];
    }

    /** `append(p)`: appending at `length()` never truncates, because the
        buffer is first grown to hold `length() + strlen(p) + 1`. */
    method Append(p: string)
      requires Valid() && maxSize > 0
      modifies this
      ensures Valid() && hasBuffer
      ensures text == old(text) + p
      ensures maxSize == Grown(old(maxSize), |old(text)| + |p| + 1)
    {
      var _ := AppendAt(|text|, p);
    }

    /** `append_num(p, num)`: appends the first `num` characters of `p`. */
    method AppendNum(p: string, num: int)
      requires Valid() && maxSize > 0
      modifies this
      ensures Valid() && hasBuffer
      ensures text == old(text) + Prefix(p, num)
    {
      var _ := AppendAtNum(|text|, p, num);
    }
  }
}
