/** `strbuf.c` and `strbuf.h`: a growable string buffer. */
module Strbufs {
  import opened Bytes

  const DEFAULT_SIZE: nat := 1023
  const DEFAULT_INCREMENT: int := -2

  class Strbuf {
    var buf: array<Byte>
    var size: nat
    var length: nat
    /** Below -1: the factor of exponential growth. */
    var increment: int
    var reallocs: nat
    /** The bytes copied by all resizes so far. */
    ghost var copied: nat

    ghost predicate Valid()
      reads this
    {
      length < size <= buf.Length && increment < -1
    }

    /** The copying paid for by growth so far. */
    ghost predicate Amortized()
      reads this
    {
      copied < size
    }

    ghost function Contents(): seq<Byte>
      reads this, buf
      requires Valid()
    {
      buf[..length]
    }

    /** `strbuf_init` and `strbuf_new` */
    constructor (len: int)
      ensures Valid() && Amortized() && fresh(buf) && Contents() == [] && copied == 0
      ensures len > 0 ==> size == len + 1
    {
      size := if len <= 0 then DEFAULT_SIZE else len + 1;
      buf := new Byte[if len <= 0 then DEFAULT_SIZE else len + 1];
      length := 0;
      increment := DEFAULT_INCREMENT;
      reallocs := 0;
      copied := 0;
      new;
      buf[0] := 0;
    }

    /** `strbuf_empty_length`: what can still be appended, a terminator being kept free. */
    function EmptyLength(): (n: nat)
      reads this
      requires Valid()
      ensures length + n + 1 == size
    {
      size - length - 1
    }

    /** `strbuf_reset` */
    method Reset()
      requires Valid()
      modifies this`length
      ensures Valid() && Contents() == []
    {
      length := 0;
    }

    /** `calculate_new_size`: down to just the request, or up by the factor until there is room for it. */
    method CalculateNewSize(len: nat) returns (newsize: nat)
      requires Valid() && len > 0
      ensures size > len + 1 ==> newsize == len + 1
      ensures size <= len + 1 ==> len + 1 <= newsize
      ensures size == len + 1 ==> newsize == size
      ensures size < len + 1 ==> 2 * size <= newsize && Below(newsize, -increment, len + 1)
    {
      var reqsize := len + 1;
      if size > reqsize {
        return reqsize;
      }
      newsize := size;
      var factor := -increment;
      while newsize < reqsize
        invariant newsize >= size && (newsize == size || (2 * size <= newsize && Below(newsize, factor, reqsize)))
        invariant size == reqsize ==> newsize == size
        decreases reqsize - newsize
      {
        Grows(newsize, factor, reqsize);
        newsize := newsize * factor;
      }
    }

    /** `strbuf_resize`; the copy moves the whole old buffer. */
    method Resize(len: nat)
      requires Valid() && length <= len && len > 0
      modifies this
      ensures Valid() && len < size && Contents() == old(Contents()) && increment == old(increment)
      ensures buf == old(buf) || fresh(buf)
      ensures old(size) <= len + 1 && old(Amortized()) ==> Amortized()
    {
      var newsize := CalculateNewSize(len);
      if size < newsize {
        var p := new Byte[newsize];
        forall i | 0 <= i < size {
          p[i] := buf[i];
        }
        copied := copied + size;
        buf := p;
      }
      size := newsize;
      reallocs := reallocs + 1;
    }

    /** `strbuf_ensure_empty_length` */
    method EnsureEmptyLength(len: nat)
      requires Valid() && Amortized()
      modifies this
      ensures Valid() && Amortized() && Contents() == old(Contents()) && EmptyLength() >= len
      ensures increment == old(increment) && (buf == old(buf) || fresh(buf))
    {
      if len > EmptyLength() {
        Resize(length + len);
      }
    }

    /** `strbuf_append_char_unsafe`: nothing is checked, the caller knows that there is room. */
    method AppendCharUnsafe(c: Byte)
      requires Valid() && EmptyLength() > 0
      modifies this`length, buf
      ensures Valid() && Contents() == old(Contents()) + [c]
    {
      buf[length] := c;
      length := length + 1;
    }

    /** `strbuf_append_char` */
    method AppendChar(c: Byte)
      requires Valid() && Amortized()
      modifies this, buf
      ensures Valid() && Amortized() && Contents() == old(Contents()) + [c]
      ensures increment == old(increment) && (buf == old(buf) || fresh(buf))
    {
      EnsureEmptyLength(1);
      AppendCharUnsafe(c);
    }

    /** `strbuf_append_mem_unsafe` */
    method AppendMemUnsafe(c: seq<Byte>)
      requires Valid() && EmptyLength() >= |c|
      modifies this`length, buf
      ensures Valid() && Contents() == old(Contents()) + c
    {
      forall i | length <= i < length + |c| {
        buf[i] := c[i - length];
      }
      length := length + |c|;
    }

    /** `strbuf_append_mem` */
    method AppendMem(c: seq<Byte>)
      requires Valid() && Amortized()
      modifies this, buf
      ensures Valid() && Amortized() && Contents() == old(Contents()) + c
      ensures increment == old(increment) && (buf == old(buf) || fresh(buf))
    {
      EnsureEmptyLength(|c|);
      AppendMemUnsafe(c);
    }

    /** `strbuf_append_string`, which makes room one character at a time. */
    method AppendString(str: seq<Byte>)
      requires Valid() && Amortized() && 0 !in str
      modifies this, buf
      ensures Valid() && Amortized() && Contents() == old(Contents()) + str
      ensures increment == old(increment) && (buf == old(buf) || fresh(buf))
      ensures old(EmptyLength()) >= |str| ==> size == old(size) && buf == old(buf)
    {
      var space := EmptyLength();
      for i := 0 to |str|
        invariant Valid() && Amortized() && Contents() == old(Contents()) + str[..i]
        invariant space == EmptyLength() && increment == old(increment) && (buf == old(buf) || fresh(buf))
        invariant old(EmptyLength()) >= |str| ==> size == old(size) && buf == old(buf)
      {
        if space < 1 {
          Resize(length + 1);
          space := EmptyLength();
        }
        buf[length] := str[i];
        length := length + 1;
        space := space - 1;
      }
    }
  }

  /** Less than the factor above the request. */
  predicate Below(newsize: nat, factor: nat, reqsize: nat) {
    newsize < factor * reqsize
  }

  lemma Grows(n: nat, factor: nat, reqsize: nat)
    requires factor >= 2 && n < reqsize
    ensures n * factor >= 2 * n && Below(n * factor, factor, reqsize)
  {
    assert n * factor - 2 * n == n * (factor - 2);
    assert factor * reqsize - n * factor == factor * (reqsize - n);
    assert factor * (reqsize - n) > 0;
  }
}
