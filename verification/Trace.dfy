/** Copying a string out of a stopped worker, word by word: fpm/fpm_trace.c, fpm_trace_get_strz. */
module Trace {
  import opened Basics

  /** w: the source is built for machines with 4-byte and with 8-byte words. */
  type WordSize = w: int | w == 4 || w == 8 witness 8

  /** The memory of the worker; addresses are signed, and reading anything else fails. */
  type Memory = map<int, Byte>

  /** A word can be read when all its bytes are there. */
  predicate Readable(w: WordSize, mem: Memory, addr: int) {
    forall j :: addr <= j < addr + w ==> j in mem
  }

  /** Division by a constant either way. */
  function Mod(w: WordSize, a: int): (r: int)
    ensures 0 <= r < w
  {
    if w == 4 then a % 4 else a % 8
  }

  /** The start of the aligned word around an address. */
  function WordOf(w: WordSize, a: int): int {
    a - Mod(w, a)
  }

  // ---- What is wanted: a bounded copy, byte by byte -----------------------------------------

  /** The bytes from `a` up to a NUL, at most sz - 1 of them; none if a byte is looked at whose word cannot be read. */
  function Copy(w: WordSize, mem: Memory, a: int, sz: nat): Option<Bytes>
    requires sz > 0
    decreases sz
  {
    if !Readable(w, mem, WordOf(w, a)) then None
    else if sz == 1 || mem[a] == 0 then Some([])
    else
      match Copy(w, mem, a + 1, sz - 1)
      case None => None
      case Some(s) => Some([mem[a]] + s)
  }

  lemma {:induction false} InWord(w: WordSize, mem: Memory, a: int)
    requires Readable(w, mem, WordOf(w, a))
    ensures a in mem
  {
  }

  lemma {:induction false} StringCons(mem: Memory, a: int, s: Bytes, t: Bytes)
    requires a in mem && mem[a] != 0 && s == [mem[a]] + t
    requires forall b :: a + 1 <= b < a + 1 + |t| ==> b in mem && t[b - (a + 1)] == mem[b] && mem[b] != 0
    ensures forall b :: a <= b < a + |s| ==> b in mem && s[b - a] == mem[b] && mem[b] != 0
  {
    forall b | a <= b < a + |s| ensures b in mem && s[b - a] == mem[b] && mem[b] != 0 {
      if b > a {
        assert s[b - a] == t[b - (a + 1)];
      }
    }
  }

  /** A copy that succeeds is the string itself, or its first sz - 1 bytes. */
  lemma {:induction false} CopyIsString(w: WordSize, mem: Memory, a: int, sz: nat)
    requires sz > 0 && Copy(w, mem, a, sz).Some?
    ensures var s := Copy(w, mem, a, sz).value;
      && |s| < sz && a + |s| in mem && (|s| == sz - 1 || mem[a + |s|] == 0)
      && forall b :: a <= b < a + |s| ==> b in mem && s[b - a] == mem[b] && mem[b] != 0
    decreases sz
  {
    InWord(w, mem, a);
    if sz > 1 && mem[a] != 0 {
      CopyIsString(w, mem, a + 1, sz - 1);
      var t := Copy(w, mem, a + 1, sz - 1).value;
      StringCons(mem, a, [mem[a]] + t, t);
    }
  }

  /** A copy fails only where the string goes on into a word that cannot be read. */
  lemma {:induction false} CopyFailsAt(w: WordSize, mem: Memory, a: int, sz: nat) returns (k: nat)
    requires sz > 0 && Copy(w, mem, a, sz).None?
    ensures k < sz && !Readable(w, mem, WordOf(w, a + k))
    ensures forall b :: a <= b < a + k ==> b in mem && mem[b] != 0
    decreases sz
  {
    k := 0;
    if Readable(w, mem, WordOf(w, a)) {
      assert a in mem;
      k := CopyFailsAt(w, mem, a + 1, sz - 1);
      k := k + 1;
    }
  }

  // ---- What the code does -------------------------------------------------------------------

  /** The remainder of C: it has the sign of the dividend. */
  function Remainder(w: WordSize, l: int): (i: int)
    ensures 0 < i + w && i < w
  {
    if l >= 0 then Mod(w, l) else -Mod(w, -l)
  }

  /** lc[i]: a byte of the word that was read last, or, for a negative i, one of the bytes below it on the stack. */
  function ByteAt(w: WordSize, mem: Memory, below: Bytes, addr: int, i: int): Byte
    requires |below| == w - 1 && 0 < i + w && i < w && Readable(w, mem, addr)
  {
    if i < 0 then below[i + w - 1] else mem[addr + i]
  }

  /** The two loops, from byte i of the word at addr on. */
  function Scan(w: WordSize, mem: Memory, below: Bytes, addr: int, i: int, sz: nat): Option<Bytes>
    requires |below| == w - 1 && 0 < i + w && i <= w && Readable(w, mem, addr) && sz > 0
    decreases sz, i
  {
    if i == w then
      if Readable(w, mem, addr + w) then Scan(w, mem, below, addr + w, 0, sz) else None
    else if sz == 1 || ByteAt(w, mem, below, addr, i) == 0 then Some([])
    else Prepend([ByteAt(w, mem, below, addr, i)], Scan(w, mem, below, addr, i + 1, sz - 1))
  }

  function Prepend(got: Bytes, o: Option<Bytes>): Option<Bytes> {
    match o
    case None => None
    case Some(s) => Some(got + s)
  }

  /** fpm_trace_get_strz behind the reading of the pointer l. */
  function GetStrz(w: WordSize, mem: Memory, below: Bytes, l: int, sz: nat): Option<Bytes>
    requires |below| == w - 1 && sz > 0
  {
    var i := Remainder(w, l);
    if Readable(w, mem, l - i) then Scan(w, mem, below, l - i, i, sz) else None
  }

  lemma {:induction false} ScanCopies(w: WordSize, mem: Memory, below: Bytes, addr: int, i: nat, sz: nat)
    requires |below| == w - 1 && i <= w && Readable(w, mem, addr) && sz > 0
    requires Mod(w, addr) == 0
    ensures Scan(w, mem, below, addr, i, sz) == Copy(w, mem, addr + i, sz)
    decreases sz, i
  {
    if i == w {
      assert WordOf(w, addr + w) == addr + w;
      if Readable(w, mem, addr + w) {
        ScanCopies(w, mem, below, addr + w, 0, sz);
      }
    } else {
      assert WordOf(w, addr + i) == addr;
      if sz > 1 && mem[addr + i] != 0 {
        ScanCopies(w, mem, below, addr, i + 1, sz - 1);
      }
    }
  }

  /**
   * For a pointer that is not negative, or is a multiple of the word size, the code copies correctly, whatever is on
   * the stack.
   */
  lemma {:induction false} CopiesString(w: WordSize, mem: Memory, below: Bytes, l: int, sz: nat)
    requires |below| == w - 1 && sz > 0
    requires l >= 0 || Mod(w, l) == 0
    ensures GetStrz(w, mem, below, l, sz) == Copy(w, mem, l, sz)
  {
    PlainRemainder(w, l);
    var i := Mod(w, l);
    if Readable(w, mem, l - i) {
      ScanCopies(w, mem, below, l - i, i, sz);
    }
  }

  lemma {:induction false} PlainRemainder(w: WordSize, l: int)
    requires l >= 0 || Mod(w, l) == 0
    ensures Remainder(w, l) == Mod(w, l) && Mod(w, l - Mod(w, l)) == 0
  {
    if w == 4 {
      ByFour(l);
    } else {
      ByEight(l);
    }
  }

  lemma {:induction false} NegativeRemainder(w: WordSize, l: int)
    requires l < 0 && Mod(w, l) != 0
    ensures Remainder(w, l) == Mod(w, l) - w
  {
    if w == 4 {
      ByFour(l);
    } else {
      ByEight(l);
    }
  }

  lemma {:induction false} ByFour(l: int)
    ensures (l - l % 4) % 4 == 0 && l % 4 == if -l % 4 == 0 then 0 else 4 - -l % 4
  {
    var n := -l;
    assert n == 4 * (n / 4) + n % 4 && l == 4 * (l / 4) + l % 4;
  }

  lemma {:induction false} ByEight(l: int)
    ensures (l - l % 8) % 8 == 0 && l % 8 == if -l % 8 == 0 then 0 else 8 - -l % 8
  {
    var n := -l;
    assert n == 8 * (n / 8) + n % 8 && l == 8 * (l / 8) + l % 8;
  }

  /** For another pointer, some stack contents make the code copy something else, or copy where it should fail. */
  lemma {:induction false} MisreadsOthers(w: WordSize, mem: Memory, l: int, sz: nat) returns (below: Bytes)
    requires l < 0 && Mod(w, l) != 0 && sz > 1
    requires Readable(w, mem, WordOf(w, l) + w)
    ensures |below| == w - 1 && GetStrz(w, mem, below, l, sz) != Copy(w, mem, l, sz)
  {
    var i := Remainder(w, l);
    NegativeRemainder(w, l);
    var b: Byte := if Copy(w, mem, l, sz) == Some([]) then 1 else 0;
    below := seq(w - 1, _ => b);
    assert ByteAt(w, mem, below, l - i, i) == b;
  }

  /** The code copies correctly from l, whatever is on the stack. */
  ghost predicate Agrees(w: WordSize, mem: Memory, l: int, sz: nat)
    requires sz > 0
  {
    forall below: Bytes :: |below| == w - 1 ==> GetStrz(w, mem, below, l, sz) == Copy(w, mem, l, sz)
  }

  /**
   * When the code copies correctly. For a negative pointer inside a word it looks at the next word only: if that can
   * be read then nothing but the empty copy is right, and otherwise the copy must fail anyway.
   */
  lemma {:induction false} AgreesExactly(w: WordSize, mem: Memory, l: int, sz: nat)
    requires sz > 0
    ensures Agrees(w, mem, l, sz) <==>
      || l >= 0 || Mod(w, l) == 0
      || (if Readable(w, mem, WordOf(w, l) + w) then sz == 1 && Readable(w, mem, WordOf(w, l))
          else Copy(w, mem, l, sz).None?)
  {
    if l >= 0 || Mod(w, l) == 0 {
      forall below: Bytes | |below| == w - 1 ensures GetStrz(w, mem, below, l, sz) == Copy(w, mem, l, sz) {
        CopiesString(w, mem, below, l, sz);
      }
      return;
    }
    NegativeRemainder(w, l);
    assert l - Remainder(w, l) == WordOf(w, l) + w;
    ghost var below := Zeros(w - 1);
    if !Readable(w, mem, WordOf(w, l) + w) {
      assert GetStrz(w, mem, below, l, sz) == None;
    } else if sz == 1 {
      assert GetStrz(w, mem, below, l, sz) == Some([]);
    } else {
      below := MisreadsOthers(w, mem, l, sz);
    }
  }

  /** The address 0xB7F01235 of a machine with 4-byte words, as a long. */
  const HIGH := 0xB7F01235 - 0x1_0000_0000

  /** The two words around it, with the string "a" there. */
  const NEGATIVE: Memory := map[
    HIGH - 1 := 0, HIGH := 97, HIGH + 1 := 0, HIGH + 2 := 0,
    HIGH + 3 := 0, HIGH + 4 := 0, HIGH + 5 := 0, HIGH + 6 := 0]

  /** A concrete case: with zeros on the stack, the copy of that string is empty. */
  lemma {:induction false} NegativePointerFails()
    ensures Copy(4, NEGATIVE, HIGH, 10) == Some([97]) && GetStrz(4, NEGATIVE, [0, 0, 0], HIGH, 10) == Some([])
  {
    assert WordOf(4, HIGH) == HIGH - 1 && WordOf(4, HIGH + 1) == HIGH - 1;
    assert Readable(4, NEGATIVE, HIGH - 1) && Readable(4, NEGATIVE, HIGH + 3);
    assert Copy(4, NEGATIVE, HIGH + 1, 9) == Some([]);
    assert Copy(4, NEGATIVE, HIGH, 10) == Some([97] + []);
    assert [97] + [] == [97];
    assert Remainder(4, HIGH) == -3;
  }

  // ---- The imperative form ------------------------------------------------------------------

  /** fpm_trace_get_long. */
  method GetLong(w: WordSize, mem: Memory, addr: int) returns (ok: bool, word: Bytes)
    ensures ok == Readable(w, mem, addr)
    ensures ok ==> |word| == w && forall j :: 0 <= j < w ==> word[j] == mem[addr + j]
  {
    ok, word := true, [];
    var j := 0;
    while j < w
      invariant 0 <= j <= w && |word| == j
      invariant forall k :: addr <= k < addr + j ==> k in mem
      invariant forall k :: 0 <= k < j ==> word[k] == mem[addr + k]
    {
      if addr + j !in mem {
        return false, [];
      }
      word := word + [mem[addr + j]];
      j := j + 1;
    }
  }

  /**
   * The copy into buf[..sz]: only aligned words are read once the pointer is known, only the first sz bytes of the
   * buffer are written, and on success they hold the string and its NUL.
   */
  method GetStrzInto(w: WordSize, mem: Memory, below: Bytes, buf: array<Byte>, size: nat, pointer: Option<int>)
    returns (ret: int)
    requires |below| == w - 1 && 0 < size <= buf.Length
    modifies buf
    ensures ret == 0 || ret == -1
    ensures pointer.None? ==> ret == -1 && buf[..] == old(buf[..])
    ensures pointer.Some? ==> (ret == 0 <==> GetStrz(w, mem, below, pointer.value, size).Some?)
    ensures ret == 0 ==>
      var s := GetStrz(w, mem, below, pointer.value, size).value;
      |s| < size && buf[..|s|] == s && buf[|s|] == 0
    ensures forall k :: size <= k < buf.Length ==> buf[k] == old(buf[k])
  {
    if pointer.None? {
      return -1;
    }
    var l := pointer.value;
    var i := Remainder(w, l);
    l := l - i;
    var ok, lc := GetLong(w, mem, l);
    if !ok {
      return -1;
    }
    ret := CopyWords(w, mem, below, buf, size, l, i, lc);
  }

  /** The loops; lc is the word at addr0. */
  method CopyWords(w: WordSize, mem: Memory, below: Bytes, buf: array<Byte>, size: nat, addr0: int, i0: int, lc0: Bytes)
    returns (ret: int)
    requires |below| == w - 1 && 0 < size <= buf.Length && 0 < i0 + w && i0 < w && Readable(w, mem, addr0)
    requires |lc0| == w && forall j :: 0 <= j < w ==> lc0[j] == mem[addr0 + j]
    modifies buf
    ensures ret == if Scan(w, mem, below, addr0, i0, size).Some? then 0 else -1
    ensures ret == 0 ==>
      var s := Scan(w, mem, below, addr0, i0, size).value;
      |s| < size && buf[..|s|] == s && buf[|s|] == 0
    ensures forall k :: size <= k < buf.Length ==> buf[k] == old(buf[k])
  {
    var addr, i, lc, sz, p := addr0, i0, lc0, size, 0;
    ghost var total := Scan(w, mem, below, addr, i, sz);
    assert total.Some? ==> [] + total.value == total.value;
    assert buf[..0] == [];
    while true
      invariant 0 <= p && 0 < sz && p + sz == size && 0 < i + w && i <= w
      invariant Readable(w, mem, addr) && |lc| == w && forall j :: 0 <= j < w ==> lc[j] == mem[addr + j]
      invariant Prepend(buf[..p], Scan(w, mem, below, addr, i, sz)) == total
      invariant forall k :: size <= k < buf.Length ==> buf[k] == old(buf[k])
      decreases sz, i
    {
      if i == w {
        addr, i := addr + w, 0;
        var ok;
        ok, lc := GetLong(w, mem, addr);
        if !ok {
          return -1;
        }
        continue;
      }
      var c := if i < 0 then below[i + w - 1] else lc[i];
      ghost var got := buf[..p];
      sz := sz - 1;
      if sz > 0 && c != 0 {
        buf[p] := c;
        assert buf[..p + 1] == got + [c];
        PrependAgain(got, c, Scan(w, mem, below, addr, i + 1, sz));
        p, i := p + 1, i + 1;
        continue;
      }
      buf[p] := 0;
      assert got + [] == got && buf[..p] == got;
      return 0;
    }
  }

  lemma {:induction false} PrependAgain(got: Bytes, c: Byte, o: Option<Bytes>)
    ensures Prepend(got + [c], o) == Prepend(got, Prepend([c], o))
  {
    if o.Some? {
      assert got + [c] + o.value == got + ([c] + o.value);
    }
  }
}
