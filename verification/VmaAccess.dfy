/** Debug access to enclave memory: EDBGRD and EDBGWR move aligned words of eight bytes, and sgx_vma_access makes a
    byte-wise copy out of them, page by page. */
module VmaAccess {
  import opened Pages

  type Byte = bv8

  const WORD := 8
  const EFAULT := 14
  const ECANCELED := 125

  function Min(a: int, b: int): int {
    if a < b then a else b
  }

  /** A sequence with `part` written over it from `at` on. */
  function Overwritten(s: seq<Byte>, at: nat, part: seq<Byte>): (r: seq<Byte>)
    requires part == [] || at + |part| <= |s|
    ensures |r| == |s|
    ensures forall i | 0 <= i < |s| :: r[i] == if at <= i < at + |part| then part[i - at] else s[i]
  {
    if part == [] then s else s[..at] + part + s[at + |part|..]
  }

  lemma NothingOverwritten(s: seq<Byte>, at: nat)
    ensures Overwritten(s, at, []) == s
  {
  }

  /** The `n` bytes from `at` on. */
  function Part(s: seq<Byte>, at: nat, n: nat): (r: seq<Byte>)
    requires n == 0 || at + n <= |s|
    ensures |r| == n
  {
    if n == 0 then [] else s[at..at + n]
  }

  /** Two neighbouring parts of `buf` written one after the other. */
  lemma OverwrittenTwice(s: seq<Byte>, at: nat, buf: seq<Byte>, i: nat, j: nat)
    requires i <= j <= |buf| && at + j <= |s|
    ensures Overwritten(Overwritten(s, at, buf[..i]), at + i, buf[i..j]) == Overwritten(s, at, buf[..j])
  {
  }

  /** Writing a part of a word through the whole word. */
  lemma OneWord(s: seq<Byte>, at: nat, word: seq<Byte>, align: nat, part: seq<Byte>)
    requires |word| == WORD && at + WORD <= |s| && align + |part| <= WORD
             && (word == s[at..at + WORD] || |part| == WORD)
    ensures Overwritten(s, at, Overwritten(word, align, part)) == Overwritten(s, at + align, part)
  {
  }

  /** What the accesses of one call meet: per page the error of its fault, 0 for none, and whether it holds a TCS; per
      word whether EDBGRD and EDBGWR succeed on it. Addresses are relative to the enclave's base. */
  datatype Conditions = Conditions(fault: nat -> int, tcs: nat -> bool, edbgrd: nat -> bool, edbgwr: nat -> bool)

  function Page(a: nat): nat {
    a / PAGE_SIZE
  }

  /** The aligned word that holds byte `a`. */
  function WordOf(a: nat): nat {
    a - a % WORD
  }

  /** How much of a buffer of length `len` ends with the word that its byte `i` falls into. */
  function Count(addr: nat, len: nat, i: nat): (cnt: nat)
    requires i < len
    ensures 0 < cnt <= len - i && (addr + i) % WORD + cnt <= WORD
  {
    Min(WORD - (addr + i) % WORD, len - i)
  }

  /** Of a TCS only some fields may be accessed: bytes 8 to 15 written, the first 72 bytes read. */
  predicate TcsRefuses(addr: nat, len: nat, i: nat, write: bool)
    requires i <= len
  {
    var offset := WordOf(addr + i) % PAGE_SIZE;
    if write then offset < 8 || offset + (len - i) > 16 else offset + (len - i) > 72
  }

  /** The error of sgx_vma_access_word, or 0. A word that is written in part is read first. */
  function WordError(addr: nat, len: nat, c: Conditions, write: bool, i: nat): (err: int)
    requires i < len
    ensures err <= 0
  {
    var at := WordOf(addr + i);
    if c.tcs(Page(addr + i)) && TcsRefuses(addr, len, i, write) then -ECANCELED
    else if (!write || (addr + i) % WORD != 0 || Count(addr, len, i) != WORD) && !c.edbgrd(at) then -EFAULT
    else if write && !c.edbgwr(at) then -EFAULT
    else 0
  }

  /** The error at byte `i`, where a word is accessed: a page is brought in before its first access. */
  function Error(addr: nat, len: nat, c: Conditions, write: bool, i: nat): int
    requires i < len
  {
    if (i == 0 || (addr + i) % PAGE_SIZE == 0) && c.fault(Page(addr + i)) != 0 then c.fault(Page(addr + i))
    else WordError(addr, len, c, write, i)
  }

  /** The bytes before the first word with an error; all of them if there is none. */
  function Reached(addr: nat, len: nat, c: Conditions, write: bool, i: nat): (r: nat)
    requires i <= len
    ensures i <= r <= len
    ensures r < len ==> Error(addr, len, c, write, r) != 0
    decreases len - i
  {
    if i == len || Error(addr, len, c, write, i) != 0 then i
    else Reached(addr, len, c, write, i + Count(addr, len, i))
  }

  /** What sgx_vma_access returns: the number of bytes, which may be short for a TCS, or the error. */
  function Returned(addr: nat, len: nat, c: Conditions, write: bool): int {
    var n := Reached(addr, len, c, write, 0);
    if n == len || Error(addr, len, c, write, n) == -ECANCELED then n else Error(addr, len, c, write, n)
  }

  /** Without errors everything is reached. */
  lemma {:induction false} NoErrorNoStop(addr: nat, len: nat, c: Conditions, write: bool, i: nat)
    requires i <= len && forall k | i <= k < len :: Error(addr, len, c, write, k) == 0
    ensures Reached(addr, len, c, write, i) == len
    decreases len - i
  {
    if i < len {
      NoErrorNoStop(addr, len, c, write, i + Count(addr, len, i));
    }
  }

  /** Ordinary pages that can be brought in, and instructions that succeed: no errors. */
  lemma PlainPagesHaveNoError(addr: nat, len: nat, c: Conditions, write: bool)
    requires forall page :: c.fault(page) == 0 && !c.tcs(page)
    requires forall at :: c.edbgrd(at) && c.edbgwr(at)
    ensures Returned(addr, len, c, write) == len
  {
    NoErrorNoStop(addr, len, c, write, 0);
  }

  // ----- Access to a TCS -----

  /** A page that can be brought in and holds a TCS, with instructions that succeed; the access stays within it. */
  ghost predicate TcsAccess(addr: nat, len: nat, c: Conditions) {
    && addr % PAGE_SIZE + len <= PAGE_SIZE && c.tcs(Page(addr)) && c.fault(Page(addr)) == 0
    && forall at :: c.edbgrd(at) && c.edbgwr(at)
  }

  /** Where byte `i` of such an access is. */
  lemma WithinPage(addr: nat, i: nat)
    requires addr % PAGE_SIZE + i < PAGE_SIZE
    ensures Page(addr + i) == Page(addr) && WordOf(addr + i) % PAGE_SIZE == addr % PAGE_SIZE + i - (addr + i) % WORD
    ensures (addr + i) % PAGE_SIZE == addr % PAGE_SIZE + i && (addr + i) % WORD == (addr % PAGE_SIZE + i) % WORD
  {
    var page, r := addr / PAGE_SIZE, addr % PAGE_SIZE + i;
    assert addr + i == PAGE_SIZE * page + r;
    assert addr + i == WORD * (512 * page) + r;
    assert (addr + i) % WORD == r % WORD;
    assert WordOf(addr + i) == PAGE_SIZE * page + (r - r % WORD);
  }

  lemma TcsError(addr: nat, len: nat, c: Conditions, write: bool, i: nat)
    requires TcsAccess(addr, len, c) && i < len
    ensures Error(addr, len, c, write, i) == if TcsRefuses(addr, len, i, write) then -ECANCELED else 0
  {
    hide WordOf, TcsRefuses, Count;
    WithinPage(addr, i);
  }

  /** From the second word on a read goes through if it ends within the first 72 bytes, and not at all otherwise. */
  lemma {:induction false} TcsReadsOn(addr: nat, len: nat, c: Conditions, i: nat)
    requires TcsAccess(addr, len, c) && i <= len && (i < len ==> (addr + i) % WORD == 0)
    ensures Reached(addr, len, c, false, i) == if addr % PAGE_SIZE + len <= 72 then len else i
    decreases len - i
  {
    if i < len {
      hide Error, WordOf, Page;
      TcsError(addr, len, c, false, i);
      WithinPage(addr, i);
      if addr % PAGE_SIZE + len <= 72 {
        NextWord(addr, len, i);
        TcsReadsOn(addr, len, c, i + Count(addr, len, i));
      }
    }
  }

  lemma NextWord(addr: nat, len: nat, i: nat)
    requires i < len
    ensures var j := i + Count(addr, len, i); i < j <= len && (j < len ==> (addr + j) % WORD == 0)
  {
  }

  /** The bytes of the first word that an access of length `len` has. */
  function FirstPart(addr: nat, len: nat): nat {
    Min(WORD - addr % WORD, len)
  }

  /** A read of a TCS gets all its bytes if it ends within the first 72 of the page. Otherwise it gets those of its
      first word, or none if the read would not end within the 72 bytes if it started with that word. */
  lemma TcsRead(addr: nat, len: nat, c: Conditions)
    requires TcsAccess(addr, len, c) && len > 0
    ensures Returned(addr, len, c, false)
            == if addr % PAGE_SIZE + len <= 72 then len
               else if addr % PAGE_SIZE - addr % WORD + len <= 72 then FirstPart(addr, len)
               else 0
  {
    hide Error, WordOf, Page;
    TcsError(addr, len, c, false, 0);
    WithinPage(addr, 0);
    assert addr + 0 == addr;
    if addr % PAGE_SIZE - addr % WORD + len <= 72 {
      NextWord(addr, len, 0);
      var j := Count(addr, len, 0);
      assert j == FirstPart(addr, len);
      TcsReadsOn(addr, len, c, j);
      if j < len {
        TcsError(addr, len, c, false, j);
        WithinPage(addr, j);
      }
    }
  }

  /** A write to a TCS reaches the word of its flags only, bytes 8 to 15 of the page: if it starts there and is not
      longer than eight bytes it writes up to the end of that word, otherwise nothing. */
  lemma TcsWrite(addr: nat, len: nat, c: Conditions)
    requires TcsAccess(addr, len, c) && len > 0
    ensures Returned(addr, len, c, true)
            == if 8 <= addr % PAGE_SIZE < 16 && len <= 8 then Min(16 - addr % PAGE_SIZE, len) else 0
  {
    hide Error, WordOf, Page;
    TcsError(addr, len, c, true, 0);
    WithinPage(addr, 0);
    assert addr + 0 == addr;
    if 8 <= addr % PAGE_SIZE < 16 && len <= 8 {
      NextWord(addr, len, 0);
      var j := Count(addr, len, 0);
      assert j == Min(16 - addr % PAGE_SIZE, len);
      if j < len {
        TcsError(addr, len, c, true, j);
        WithinPage(addr, j);
        assert TcsRefuses(addr, len, j, true);
        assert Reached(addr, len, c, true, j) == j;
      }
      assert Reached(addr, len, c, true, 0) == j;
    }
  }

  /** A word that is accessed lies in the enclave. */
  lemma WordFits(a: nat, length: nat)
    requires a < length && length % PAGE_SIZE == 0
    ensures WordOf(a) + WORD <= length && WordOf(a) % WORD == 0 && a - WordOf(a) == a % WORD
  {
    WordBelow(a / WORD, a % WORD, 512 * (length / PAGE_SIZE));
    assert WordOf(a) == WORD * (a / WORD);
  }

  lemma WordBelow(words: nat, rest: nat, limit: nat)
    requires WORD * words + rest < WORD * limit
    ensures WORD * words + WORD <= WORD * limit && WORD * words % WORD == 0
  {
  }

  lemma PageIsInside(a: nat, length: nat)
    requires (Page(a) + 1) * PAGE_SIZE <= length
    ensures a < length
  {
  }

  lemma NotAtPageStart(a: nat, length: nat)
    requires a <= length && length % PAGE_SIZE == 0 && a % PAGE_SIZE != 0
    ensures a < length
  {
  }

  class Memory {
    const mem: array<Byte>

    ghost predicate Valid() {
      mem.Length % PAGE_SIZE == 0
    }

    /** Only pages of the enclave can be brought in; errors are negative. */
    ghost predicate Possible(c: Conditions) {
      && (forall page: nat | c.fault(page) == 0 :: (page + 1) * PAGE_SIZE <= mem.Length)
      && (forall page: nat :: c.fault(page) <= 0)
    }

    constructor (pages: nat)
      ensures Valid() && fresh(mem) && mem.Length == pages * PAGE_SIZE
    {
      mem := new Byte[pages * PAGE_SIZE](_ => 0);
    }

    /** EDBGRD: the aligned word at `at`. */
    method Edbgrd(at: nat, c: Conditions) returns (ok: bool, data: seq<Byte>)
      requires at % WORD == 0 && at + WORD <= mem.Length
      ensures ok == c.edbgrd(at) && |data| == WORD && (ok ==> data == mem[at..at + WORD])
    {
      ok := c.edbgrd(at);
      data := if ok then mem[at..at + WORD] else seq(WORD, _ => 0);
    }

    /** EDBGWR */
    method Edbgwr(at: nat, data: seq<Byte>, c: Conditions) returns (ok: bool)
      requires at % WORD == 0 && at + WORD <= mem.Length && |data| == WORD
      modifies mem
      ensures ok == c.edbgwr(at)
      ensures mem[..] == if ok then Overwritten(old(mem[..]), at, data) else old(mem[..])
    {
      ok := c.edbgwr(at);
      if ok {
        var i := 0;
        while i < WORD
          invariant 0 <= i <= WORD
          invariant forall j | 0 <= j < mem.Length ::
                      mem[j] == if at <= j < at + i then data[j - at] else old(mem[j])
        {
          mem[at + i] := data[i];
          i := i + 1;
        }
        assert mem[..] == Overwritten(old(mem[..]), at, data);
      }
    }

    /** sgx_vma_access_word, writing: as much of `buf` from `i` on as ends with the word, or nothing and an error. */
    method WriteWord(addr: nat, buf: seq<Byte>, i: nat, c: Conditions) returns (ret: int)
      requires Valid() && i < |buf| && addr + i < mem.Length
      modifies mem
      ensures var e := WordError(addr, |buf|, c, true, i);
              && ret == (if e == 0 then Count(addr, |buf|, i) else e)
              && (e != 0 ==> mem[..] == old(mem[..]))
              && (e == 0 ==> addr + i + ret <= mem.Length
                             && mem[..] == Overwritten(old(mem[..]), addr + i, buf[i..i + ret]))
    {
      hide WordOf, Count, TcsRefuses, Page, Overwritten;
      var align := (addr + i) % WORD;
      var at := WordOf(addr + i);
      var cnt := Count(addr, |buf|, i);
      WordFits(addr + i, mem.Length);
      if c.tcs(Page(addr + i)) && TcsRefuses(addr, |buf|, i, true) {
        return -ECANCELED;
      }
      var data, ok := seq(WORD, _ => 0), true;
      if align != 0 || cnt != WORD {
        ok, data := Edbgrd(at, c);
        if !ok {
          return -EFAULT;
        }
      }
      OneWord(mem[..], at, data, align, buf[i..i + cnt]);
      ok := Edbgwr(at, Overwritten(data, align, buf[i..i + cnt]), c);
      return if ok then cnt else -EFAULT;
    }

    /** sgx_vma_access_word, reading. */
    method ReadWord(addr: nat, buf: array<Byte>, i: nat, c: Conditions) returns (ret: int)
      requires Valid() && i < buf.Length && addr + i < mem.Length && buf != mem
      modifies buf
      ensures var e := WordError(addr, buf.Length, c, false, i);
              && ret == (if e == 0 then Count(addr, buf.Length, i) else e)
              && (e != 0 ==> buf[..] == old(buf[..]))
              && (e == 0 ==> addr + i + ret <= mem.Length
                             && buf[..] == Overwritten(old(buf[..]), i, mem[addr + i..addr + i + ret]))
    {
      hide WordOf, Count, TcsRefuses, Page;
      var align := (addr + i) % WORD;
      var at := WordOf(addr + i);
      var cnt := Count(addr, buf.Length, i);
      WordFits(addr + i, mem.Length);
      if c.tcs(Page(addr + i)) && TcsRefuses(addr, buf.Length, i, false) {
        return -ECANCELED;
      }
      var ok, data := Edbgrd(at, c);
      if !ok {
        return -EFAULT;
      }
      var k := 0;
      while k < cnt
        invariant 0 <= k <= cnt
        invariant forall j | 0 <= j < buf.Length ::
                    buf[j] == if i <= j < i + k then mem[addr + j] else old(buf[j])
      {
        buf[i + k] := data[align + k];
        k := k + 1;
      }
      assert buf[..] == Overwritten(old(buf[..]), i, mem[addr + i..addr + i + cnt]);
      return cnt;
    }

    /** Brings in the page of byte `i` of an access if it is the first one or starts a new page; 0 or the error. */
    method BringIn(addr: nat, i: nat, c: Conditions) returns (err: int)
      requires Valid() && Possible(c) && (i > 0 ==> addr + i <= mem.Length)
      ensures err == (if i == 0 || (addr + i) % PAGE_SIZE == 0 then c.fault(Page(addr + i)) else 0)
      ensures err == 0 ==> addr + i < mem.Length
    {
      if i == 0 || (addr + i) % PAGE_SIZE == 0 {
        err := c.fault(Page(addr + i));
        if err == 0 {
          PageIsInside(addr + i, mem.Length);
        }
      } else {
        NotAtPageStart(addr + i, mem.Length);
        err := 0;
      }
    }

    /** sgx_vma_access, writing: a plain copy of the bytes up to the first word with an error. */
    method Write(addr: nat, buf: seq<Byte>, c: Conditions) returns (ret: int)
      requires Valid() && Possible(c)
      modifies mem
      ensures ret == Returned(addr, |buf|, c, true)
      ensures var n := Reached(addr, |buf|, c, true, 0);
              (n == 0 || addr + n <= mem.Length) && mem[..] == Overwritten(old(mem[..]), addr, buf[..n])
    {
      hide Overwritten, WordError, TcsRefuses, Count, Page;
      var i: nat := 0;
      NothingOverwritten(mem[..], addr);
      assert buf[..0] == [];
      while i < |buf|
        invariant i <= |buf| && (i == 0 || addr + i <= mem.Length)
        invariant mem[..] == Overwritten(old(mem[..]), addr, buf[..i])
        invariant Reached(addr, |buf|, c, true, 0) == Reached(addr, |buf|, c, true, i)
        decreases |buf| - i
      {
        var err := BringIn(addr, i, c);
        if err == 0 {
          var cnt := WriteWord(addr, buf, i, c);
          err := cnt;
          if cnt >= 0 {
            OverwrittenTwice(old(mem[..]), addr, buf, i, i + cnt);
            i := i + cnt;
          }
        }
        if err < 0 {
          return if err == -ECANCELED then i else err;
        }
      }
      assert buf[..i] == buf;
      return i;
    }

    /** sgx_vma_access, reading. */
    method Read(addr: nat, buf: array<Byte>, c: Conditions) returns (ret: int)
      requires Valid() && Possible(c) && buf != mem
      modifies buf
      ensures ret == Returned(addr, buf.Length, c, false)
      ensures var n := Reached(addr, buf.Length, c, false, 0);
              (n == 0 || addr + n <= mem.Length) && buf[..] == Overwritten(old(buf[..]), 0, Part(mem[..], addr, n))
    {
      hide Overwritten, WordError, TcsRefuses, Count, Page;
      var i: nat := 0;
      NothingOverwritten(buf[..], 0);
      while i < buf.Length
        invariant i <= buf.Length && (i == 0 || addr + i <= mem.Length)
        invariant buf[..] == Overwritten(old(buf[..]), 0, Part(mem[..], addr, i))
        invariant Reached(addr, buf.Length, c, false, 0) == Reached(addr, buf.Length, c, false, i)
        decreases buf.Length - i
      {
        var err := BringIn(addr, i, c);
        if err == 0 {
          var cnt := ReadWord(addr, buf, i, c);
          err := cnt;
          if cnt >= 0 {
            ReadTwice(old(buf[..]), mem[..], addr, i, i + cnt);
            i := i + cnt;
          }
        }
        if err < 0 {
          return if err == -ECANCELED then i else err;
        }
      }
      return i;
    }
  }

  /** Two neighbouring parts of the memory read one after the other. */
  lemma ReadTwice(s: seq<Byte>, m: seq<Byte>, addr: nat, i: nat, j: nat)
    requires i <= j <= |s| && (j == 0 || addr + j <= |m|)
    ensures j > i ==> Overwritten(Overwritten(s, 0, Part(m, addr, i)), i, m[addr + i..addr + j])
                      == Overwritten(s, 0, Part(m, addr, j))
  {
    if j > i {
      var part := Part(m, addr, j);
      assert part[..i] == Part(m, addr, i) && part[i..j] == m[addr + i..addr + j] && part[..j] == part;
      OverwrittenTwice(s, 0, part, i, j);
    }
  }
}
