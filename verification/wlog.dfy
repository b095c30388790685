// WLog (AsioNet/AsioNet/WLog/WLog.h/.cpp): the process-wide logger. A
// 32-bit mask says which log types are written. The log directory is kept
// as a NUL-terminated char array of MAX_STR_LEN and normalised to end in
// '/'. A pool of content blocks is handed out and returned through a free
// list, used as a FIFO when a worker thread does the writing.
//
// The clock, the formatting of the caller's arguments and the files are
// outside the model. Trace takes the local time and the already formatted
// message, and returns the block it hands to WriteImmediately.

module WLogs {
  import opened NetUtils
  import opened Protocol

  const MAX_STR_LEN: nat := 512
  /** ELogType: KeyInfo 0, Error 1, Warning 2, Info 3; ELT_Max counts them. */
  const ELT_MAX: nat := 4
  const NUL: char := '\0'

  // ---------------------------------------------------------------------
  // The log mask: an unsigned int, with |, & and & ~ written out bit by bit

  function Pow2(n: nat): (r: nat)
    ensures r >= 1
  {
    if n == 0 then 1 else 2 * Pow2(n - 1)
  }

  /** Bit k of m, counting from the least significant. */
  predicate BitSet(m: nat, k: nat)
  {
    if k == 0 then m % 2 == 1 else BitSet(m / 2, k - 1)
  }

  /** a | b on unsigned integers. */
  function BitOr(a: nat, b: nat): (r: nat)
    decreases a + b
  {
    if a == 0 && b == 0 then 0
    else 2 * BitOr(a / 2, b / 2) + (if a % 2 == 1 || b % 2 == 1 then 1 else 0)
  }

  /** a & b on unsigned integers. */
  function BitAnd(a: nat, b: nat): (r: nat)
    decreases a
  {
    if a == 0 then 0
    else 2 * BitAnd(a / 2, b / 2) + (if a % 2 == 1 && b % 2 == 1 then 1 else 0)
  }

  /** a & ~b on unsigned integers of any width that holds a. */
  function BitAndNot(a: nat, b: nat): (r: nat)
    decreases a
  {
    if a == 0 then 0
    else 2 * BitAndNot(a / 2, b / 2) + (if a % 2 == 1 && b % 2 == 0 then 1 else 0)
  }

  /** `(unsigned int)1 << bType`; a shift by 32 or more is undefined in C++. */
  function TypeBit(bType: nat): (m: u32)
    requires bType < 32
    ensures m == Pow2(bType)
  {
    Pow2Below(bType, 32);
    Pow2(bType)
  }

  lemma {:induction false} Pow2Add(a: nat, b: nat)
    ensures Pow2(a + b) == Pow2(a) * Pow2(b)
    decreases a
  {
    if a > 0 {
      Pow2Add(a - 1, b);
    }
  }

  lemma Pow2Of32()
    ensures Pow2(32) == 0x1_0000_0000
  {
    assert Pow2(4) == 16;
    Pow2Add(4, 4);
    assert Pow2(8) == 0x100;
    Pow2Add(8, 8);
    assert Pow2(16) == 0x1_0000;
    Pow2Add(16, 16);
  }

  /** 2^n for n below 32 fits in an unsigned int. */
  lemma {:induction false} Pow2Below(n: nat, w: nat)
    requires n < w
    ensures Pow2(n) < Pow2(w) && Pow2(32) == 0x1_0000_0000
    decreases w
  {
    Pow2Of32();
    if n < w - 1 {
      Pow2Below(n, w - 1);
    }
  }

  /** Zero has no bit set. */
  lemma {:induction false} NoBitOfZero(k: nat)
    ensures !BitSet(0, k)
  {
    if k > 0 {
      NoBitOfZero(k - 1);
    }
  }

  /** Only bit n of 2^n is set. */
  lemma {:induction false} BitsOfPow2(n: nat, k: nat)
    ensures BitSet(Pow2(n), k) <==> k == n
    decreases n
  {
    if n == 0 {
      if k > 0 {
        NoBitOfZero(k - 1);
      }
    } else if k > 0 {
      BitsOfPow2(n - 1, k - 1);
    }
  }

  /** A bit of a | b is set exactly when it is set in a or in b. */
  lemma {:induction false} BitsOfOr(a: nat, b: nat, k: nat)
    ensures BitSet(BitOr(a, b), k) <==> BitSet(a, k) || BitSet(b, k)
    decreases k
  {
    if a == 0 && b == 0 {
      NoBitOfZero(k);
    } else if k > 0 {
      BitsOfOr(a / 2, b / 2, k - 1);
    }
  }

  /** A bit of a & b is set exactly when it is set in both. */
  lemma {:induction false} BitsOfAnd(a: nat, b: nat, k: nat)
    ensures BitSet(BitAnd(a, b), k) <==> BitSet(a, k) && BitSet(b, k)
    decreases k
  {
    if a == 0 {
      NoBitOfZero(k);
    } else if k > 0 {
      BitsOfAnd(a / 2, b / 2, k - 1);
    }
  }

  /** A bit of a & ~b is set exactly when it is set in a and not in b. */
  lemma {:induction false} BitsOfAndNot(a: nat, b: nat, k: nat)
    ensures BitSet(BitAndNot(a, b), k) <==> BitSet(a, k) && !BitSet(b, k)
    decreases k
  {
    if a == 0 {
      NoBitOfZero(k);
    } else if k > 0 {
      BitsOfAndNot(a / 2, b / 2, k - 1);
    }
  }

  lemma {:induction false} AndZero(a: nat)
    ensures BitAnd(a, 0) == 0
    decreases a
  {
    if a != 0 {
      AndZero(a / 2);
    }
  }

  /** Masking with 2^n keeps that one bit: 2^n when it is set, 0 otherwise. */
  lemma {:induction false} AndPow2(m: nat, n: nat)
    ensures BitAnd(m, Pow2(n)) == if BitSet(m, n) then Pow2(n) else 0
    decreases n
  {
    if m == 0 {
      NoBitOfZero(n);
    } else if n == 0 {
      AndZero(m / 2);
    } else {
      AndPow2(m / 2, n - 1);
    }
  }

  /** a | b stays within the width of a and b. */
  lemma {:induction false} OrWithin(a: nat, b: nat, w: nat)
    requires a < Pow2(w) && b < Pow2(w)
    ensures BitOr(a, b) < Pow2(w)
    decreases w
  {
    if w > 0 && !(a == 0 && b == 0) {
      OrWithin(a / 2, b / 2, w - 1);
    }
  }

  /** a & ~b is no larger than a. */
  lemma {:induction false} AndNotWithin(a: nat, b: nat)
    ensures BitAndNot(a, b) <= a
    decreases a
  {
    if a != 0 {
      AndNotWithin(a / 2, b / 2);
    }
  }

  // ---------------------------------------------------------------------
  // C strings in fixed arrays

  /** strlen over a fixed array: the index of the first NUL, or the whole array when there is none. */
  function Strlen(a: seq<char>): (n: nat)
    ensures n <= |a| && (n < |a| ==> a[n] == NUL)
    ensures forall i :: 0 <= i < n ==> a[i] != NUL
  {
    if |a| == 0 || a[0] == NUL then 0 else 1 + Strlen(a[1..])
  }

  /** The string an array holds. */
  function CString(a: seq<char>): (s: seq<char>)
  {
    a[..Strlen(a)]
  }

  /** A C string: no NUL inside. */
  predicate NoNul(s: seq<char>)
  {
    forall i :: 0 <= i < |s| ==> s[i] != NUL
  }

  /** The first NUL ends the string, whatever follows it. */
  lemma {:induction false} StrlenAt(a: seq<char>, n: nat)
    requires n < |a| && a[n] == NUL && NoNul(a[..n])
    ensures Strlen(a) == n
    decreases n
  {
    if n > 0 {
      assert a[1..][..n - 1] == a[..n][1..];
      StrlenAt(a[1..], n - 1);
    }
  }

  /** A string with no NUL, as read from an array that holds it in full. */
  lemma {:induction false} StrlenWhole(a: seq<char>)
    requires NoNul(a)
    ensures Strlen(a) == |a|
    decreases |a|
  {
    if |a| > 0 {
      StrlenWhole(a[1..]);
    }
  }

  /**
   * strncpy(dst, src, n): at most n characters of src, the rest of the n
   * filled with NUL; no terminator when src has n characters or more.
   */
  function Strncpy(src: seq<char>, n: nat): (r: seq<char>)
    ensures |r| == n
    ensures forall i :: 0 <= i < n ==> r[i] == if i < |src| then src[i] else NUL
  {
    if |src| >= n then src[..n] else src + seq(n - |src|, _ => NUL)
  }

  /** What strncpy leaves is the source cut to n characters. */
  lemma StrncpyHolds(src: seq<char>, n: nat)
    requires NoNul(src)
    ensures CString(Strncpy(src, n)) == if |src| >= n then src[..n] else src
  {
    var r := Strncpy(src, n);
    if |src| >= n {
      StrlenWhole(r);
    } else {
      assert r[..|src|] == src;
      StrlenAt(r, |src|);
    }
  }

  /**
   * The directory CreateLogPath leaves: the path cut to MAX_STR_LEN - 1
   * characters, then given a trailing '/' by appending one when there is
   * room, or by overwriting the last character when there is not.
   */
  function NormalizedPath(s: seq<char>): (p: seq<char>)
    requires 0 < |s| <= MAX_STR_LEN
    ensures 0 < |p| < MAX_STR_LEN && p[|p| - 1] == '/'
    ensures p[..|p| - 1] <= s
    ensures NoNul(s) ==> NoNul(p)
    ensures |s| < MAX_STR_LEN - 1 && s[|s| - 1] != '/' ==> p == s + ['/']
    ensures |s| < MAX_STR_LEN && s[|s| - 1] == '/' ==> p == s
  {
    var t := if |s| >= MAX_STR_LEN then s[..MAX_STR_LEN - 1] else s;
    if t[|t| - 1] == '/' then t
    else if |t| < MAX_STR_LEN - 1 then t + ['/']
    else t[..|t| - 1] + ['/']
  }

  /** Normalising a normalised directory changes nothing. */
  lemma NormalizedPathIdempotent(s: seq<char>)
    requires 0 < |s| <= MAX_STR_LEN
    ensures NormalizedPath(NormalizedPath(s)) == NormalizedPath(s)
  {
  }

  // ---------------------------------------------------------------------
  // Log lines

  /** The fields of struct tm that Trace reads, as localtime fills them. */
  datatype LocalTime = LocalTime(year: nat, mon: nat, mday: nat, hour: nat, min: nat, sec: nat)
  {
    predicate Valid()
    {
      mon < 12 && 1 <= mday <= 31 && hour < 24 && min < 60 && sec <= 60
    }
  }

  /** SLogContent: the log type, the date and the text of one line. */
  datatype Content = Content(bType: byte, year: u16, month: u16, date: u16, text: seq<char>)

  function Digit(d: nat): (c: char)
    requires d < 10
  {
    "0123456789"[d]
  }

  /** "%02d" for a value below 100. */
  function TwoDigits(v: nat): (r: seq<char>)
    requires v < 100
    ensures |r| == 2 && NoNul(r)
  {
    [Digit(v / 10), Digit(v % 10)]
  }

  /** The "%02d:%02d:%02d " time stamp. */
  function Stamp(t: LocalTime): (r: seq<char>)
    requires t.Valid()
    ensures |r| == 9 && r[2] == ':' && r[5] == ':' && r[8] == ' ' && NoNul(r)
  {
    TwoDigits(t.hour) + [':'] + TwoDigits(t.min) + [':'] + TwoDigits(t.sec) + [' ']
  }

  /** What snprintf keeps of s in a buffer of n + 1 characters. */
  function Truncate(s: seq<char>, n: nat): (r: seq<char>)
    ensures |r| <= n && r <= s
    ensures |s| <= n ==> r == s
    ensures |r| == if |s| <= n then |s| else n
  {
    if |s| <= n then s else s[..n]
  }

  /**
   * The content Trace fills in: the type, tm_year + 1900, tm_mon + 1 and
   * tm_mday stored in unsigned shorts, and the stamp followed by the
   * message, cut to what fits in MAX_STR_LEN with its terminator.
   */
  function LogLine(bType: byte, t: LocalTime, message: seq<char>): (c: Content)
    requires t.Valid()
    ensures c.bType == bType && c.month == t.mon + 1 && c.date == t.mday
    ensures t.year + 1900 < 0x1_0000 ==> c.year == t.year + 1900
    ensures 9 <= |c.text| < MAX_STR_LEN && c.text[..9] == Stamp(t)
    ensures |Stamp(t) + message| < MAX_STR_LEN ==> c.text[9..] == message
  {
    LineText(t, message);
    SixteenBits(t.year + 1900);
    Content(bType, (t.year + 1900) % 0x1_0000, t.mon + 1, t.mday, Truncate(Stamp(t) + message, MAX_STR_LEN - 1))
  }

  /** The text of a log line starts with the stamp, and holds the whole message when it fits. */
  lemma LineText(t: LocalTime, message: seq<char>)
    requires t.Valid()
    ensures var text := Truncate(Stamp(t) + message, MAX_STR_LEN - 1);
            && 9 <= |text| < MAX_STR_LEN && text[..9] == Stamp(t)
            && (|Stamp(t) + message| < MAX_STR_LEN ==> text[9..] == message)
  {
    var text := Truncate(Stamp(t) + message, MAX_STR_LEN - 1);
    assert text[..9] == (Stamp(t) + message)[..9];
  }

  /** The block indices 0 .. n-1, in order. */
  function Indices(n: nat): (r: seq<nat>)
    ensures |r| == n && forall i :: 0 <= i < n ==> r[i] == i
  {
    seq(n, i => i)
  }

  /** A fresh char array of n filled by strncpy from src. */
  method NewCString(src: seq<char>, n: nat) returns (a: array<char>)
    ensures fresh(a) && a[..] == Strncpy(src, n)
  {
    var r := Strncpy(src, n);
    a := new char[n](i requires 0 <= i < n => r[i]);
  }

  /** m_astContent: a fresh array of count content blocks. */
  method NewBlocks(count: nat) returns (a: array<Content>)
    ensures fresh(a) && a.Length == count
  {
    a := new Content[count](_ => Content(0, 0, 0, 0, []));
  }

  /** The loop of Init that puts every block on the free list, in order. */
  method FreeBlocks(count: nat) returns (list: seq<nat>)
    ensures list == Indices(count)
  {
    list := [];
    for i := 0 to count
      invariant list == Indices(i)
    {
      list := list + [i];
    }
  }

  // ---------------------------------------------------------------------
  // The logger

  class WLog {
    var logMask: u32
    const logPath: array<char>
    var logName: seq<char>
    const useWorkThread: bool
    var stopWorkThread: bool
    /** m_astContent: the content blocks; the lists hold their indices. */
    const blocks: array<Content>
    var freeList: seq<nat>
    var usedList: seq<nat>

    /** The blocks the free list and the used list hold between them. */
    ghost function Held(): multiset<nat>
      reads this`freeList, this`usedList
    {
      multiset(freeList) + multiset(usedList)
    }

    /**
     * Each block is in at most one list, at most once. Without a worker
     * thread there is exactly one block.
     */
    ghost predicate Valid()
      reads this`freeList, this`usedList
    {
      && logPath.Length == MAX_STR_LEN
      && blocks.Length >= 1
      && (!useWorkThread ==> blocks.Length == 1)
      && Held() <= multiset(Indices(blocks.Length))
    }

    /**
     * WLog() followed by Init: the mask starts empty; the directory is
     * strncpy'd and normalised, the name strncpy'd; one block without a
     * worker thread, max(contentCount, 1) blocks with one, all free.
     */
    constructor (strLogPath: seq<char>, strLogName: seq<char>, useWorkThread: bool, contentCount: int)
      requires 0 < |strLogPath| && NoNul(strLogPath)
      ensures Valid() && logMask == 0 && this.useWorkThread == useWorkThread && !stopWorkThread
      ensures CString(logPath[..]) == NormalizedPath(Truncate(strLogPath, MAX_STR_LEN))
      ensures logName == Strncpy(strLogName, MAX_STR_LEN)
      ensures blocks.Length == if useWorkThread && contentCount > 1 then contentCount else 1
      ensures freeList == Indices(blocks.Length) && usedList == []
      ensures fresh(blocks) && fresh(logPath)
    {
      logMask := 0;
      this.useWorkThread := useWorkThread;
      var path := NewCString(strLogPath, MAX_STR_LEN);
      logPath := path;
      logName := Strncpy(strLogName, MAX_STR_LEN);
      var count := if useWorkThread && contentCount > 1 then contentCount else 1;
      var pool := NewBlocks(count);
      blocks := pool;
      stopWorkThread := false;
      var free := FreeBlocks(count);
      freeList := free;
      usedList := [];
      new;
      assert multiset(usedList) == multiset{};
      StrncpyHolds(strLogPath, MAX_STR_LEN);
      ghost var s0 := CString(logPath[..]);
      assert s0 == Truncate(strLogPath, MAX_STR_LEN);
      CreateLogPath();
    }

    /** AppendLogMask: sets the type's bit and no other. */
    method AppendLogMask(bType: byte)
      requires bType < 32
      modifies this`logMask
      ensures logMask == BitOr(old(logMask), TypeBit(bType))
      ensures forall k :: BitSet(logMask, k) <==> k == bType || BitSet(old(logMask), k)
    {
      Pow2Below(bType, 32);
      OrWithin(logMask, TypeBit(bType), 32);
      logMask := BitOr(logMask, TypeBit(bType));
      forall k
        ensures BitSet(logMask, k) <==> k == bType || BitSet(old(logMask), k)
      {
        BitsOfOr(old(logMask), TypeBit(bType), k);
        BitsOfPow2(bType, k);
      }
    }

    /** RemoveLogMask: clears the type's bit and no other. */
    method RemoveLogMask(bType: byte)
      requires bType < 32
      modifies this`logMask
      ensures logMask == BitAndNot(old(logMask), TypeBit(bType))
      ensures forall k :: BitSet(logMask, k) <==> k != bType && BitSet(old(logMask), k)
    {
      AndNotWithin(logMask, TypeBit(bType));
      logMask := BitAndNot(logMask, TypeBit(bType));
      forall k
        ensures BitSet(logMask, k) <==> k != bType && BitSet(old(logMask), k)
      {
        BitsOfAndNot(old(logMask), TypeBit(bType), k);
        BitsOfPow2(bType, k);
      }
    }

    /** PeekLogMask: `(mask & (1 << bType)) != 0`, which holds exactly when the type's bit is set. */
    function PeekLogMask(bType: byte): (on: bool)
      requires bType < 32
      reads this`logMask
      ensures on <==> BitSet(logMask, bType)
    {
      AndPow2(logMask, bType);
      BitAnd(logMask, TypeBit(bType)) != 0
    }

    /**
     * CreateLogPath on the directory array: cut to MAX_STR_LEN - 1
     * characters, then ended with '/'. The path must not be empty, since
     * the character before the end is read.
     */
    method CreateLogPath()
      requires logPath.Length == MAX_STR_LEN && 0 < Strlen(logPath[..])
      requires NoNul(CString(logPath[..]))
      modifies logPath
      ensures Strlen(logPath[..]) < MAX_STR_LEN
      ensures CString(logPath[..]) == NormalizedPath(old(CString(logPath[..])))
    {
      ghost var s := CString(logPath[..]);
      var len := Strlen(logPath[..]);
      if len >= MAX_STR_LEN {
        len := MAX_STR_LEN - 1;
        logPath[len] := NUL;
      }
      ghost var t := if |s| >= MAX_STR_LEN then s[..MAX_STR_LEN - 1] else s;
      assert logPath[..len] == t;
      if logPath[len - 1] != '/' {
        if len < MAX_STR_LEN - 1 {
          logPath[len] := '/';
          logPath[len + 1] := NUL;
          assert logPath[..len + 1] == t + ['/'];
          StrlenAt(logPath[..], len + 1);
        } else {
          logPath[len - 1] := '/';
          assert logPath[..len] == t[..len - 1] + ['/'];
          StrlenAt(logPath[..], len);
        }
      } else {
        StrlenAt(logPath[..], len);
      }
    }

    /**
     * AllocFreeLogContent: with a worker thread, the front of the free
     * list, or none when it is empty; without one, always the single block.
     */
    method AllocFreeLogContent() returns (block: Option<nat>)
      requires Valid()
      modifies this`freeList
      ensures Valid()
      ensures useWorkThread && old(freeList) == [] ==> block == None && freeList == []
      ensures useWorkThread && old(freeList) != [] ==> block == Some(old(freeList[0])) && freeList == old(freeList[1..])
      ensures !useWorkThread ==> block == Some(0) && freeList == old(freeList)
      ensures block.Some? ==> block.value < blocks.Length
      ensures Held() + (if useWorkThread && block.Some? then multiset{block.value} else multiset{}) == old(Held())
    {
      if useWorkThread {
        if freeList != [] {
          block := Some(freeList[0]);
          assert freeList == [freeList[0]] + freeList[1..];
          assert freeList[0] in multiset(Indices(blocks.Length));
          freeList := freeList[1..];
        } else {
          block := None;
        }
      } else {
        block := Some(0);
      }
    }

    /** ReleaseFreeLogContent: with a worker thread a block goes to the back of the free list; without one nothing happens. */
    method ReleaseFreeLogContent(block: Option<nat>)
      modifies this`freeList
      ensures useWorkThread && block.Some? ==> freeList == old(freeList) + [block.value]
      ensures !useWorkThread || block.None? ==> freeList == old(freeList)
    {
      if useWorkThread && block.Some? {
        freeList := freeList + [block.value];
      }
    }

    /** StopWorkThead: raises the stop flag when there is a worker thread (the join is not modelled). */
    method StopWorkThread()
      modifies this`stopWorkThread
      ensures stopWorkThread == (old(stopWorkThread) || useWorkThread)
    {
      if !useWorkThread {
        return;
      }
      stopWorkThread := true;
    }

    /**
     * Trace: nothing for a missing format, a type past ELT_Max or a type
     * the mask turns off. Otherwise a block is taken and filled with the
     * line. Without a worker thread it is written at once (`written`).
     * With one it is queued for the thread, unless the thread is being
     * stopped; then the block is neither queued nor given back.
     */
    method Trace(bType: byte, hasFormat: bool, now: LocalTime, message: seq<char>) returns (written: Option<Content>)
      requires Valid() && now.Valid()
      modifies this`freeList, this`usedList, blocks
      ensures Valid()
      ensures !hasFormat || bType >= ELT_MAX || !PeekLogMask(bType) ==>
        written == None && freeList == old(freeList) && usedList == old(usedList) && unchanged(blocks)
      ensures hasFormat && bType < ELT_MAX && PeekLogMask(bType) ==>
        var line := LogLine(bType, now, message);
        && (!useWorkThread ==> written == Some(line) && blocks[0] == line
                               && freeList == old(freeList) && usedList == old(usedList))
        && (useWorkThread && old(freeList) == [] ==>
              written == None && freeList == [] && usedList == old(usedList) && unchanged(blocks))
        && (useWorkThread && old(freeList) != [] ==>
              var b := old(freeList[0]);
              && written == None && b < blocks.Length && blocks[b] == line && freeList == old(freeList[1..])
              && usedList == old(usedList) + (if stopWorkThread then [] else [b])
              && Held() + (if stopWorkThread then multiset{b} else multiset{}) == old(Held()))
    {
      written := None;
      if !hasFormat || bType >= ELT_MAX {
        return;
      }
      if !PeekLogMask(bType) {
        return;
      }
      var block := AllocFreeLogContent();
      if block.Some? {
        ghost var used0 := usedList;
        written := Dispatch(block.value, LogLine(bType, now, message));
        if useWorkThread {
          QueueAccounting(freeList, used0, usedList, block.value, !stopWorkThread, old(Held()));
        }
      }
    }

    /**
     * The rest of Trace once a block is taken: the block is filled; it is
     * written at once without a worker thread, queued with one, and
     * dropped when the thread is being stopped.
     */
    method Dispatch(block: nat, line: Content) returns (written: Option<Content>)
      requires block < blocks.Length
      modifies this`usedList, blocks
      ensures blocks[block] == line
      ensures forall i :: 0 <= i < blocks.Length && i != block ==> blocks[i] == old(blocks[i])
      ensures !useWorkThread ==> written == Some(line) && usedList == old(usedList)
      ensures useWorkThread ==> written == None && usedList == old(usedList) + (if stopWorkThread then [] else [block])
    {
      written := None;
      blocks[block] := line;
      if useWorkThread {
        if !stopWorkThread {
          usedList := usedList + [block];
        }
      } else {
        written := Some(line);
      }
    }
  }

  /**
   * A block taken from the free list and then queued is held again; one
   * dropped is missing from both lists.
   */
  lemma QueueAccounting(free: seq<nat>, used0: seq<nat>, used1: seq<nat>, b: nat, queued: bool, before: multiset<nat>)
    requires used1 == used0 + (if queued then [b] else [])
    requires multiset(free) + multiset(used0) + multiset{b} == before
    ensures multiset(free) + multiset(used1) + (if queued then multiset{} else multiset{b}) == before
    ensures multiset(free) + multiset(used1) <= before
  {
    assert multiset(used1) == multiset(used0) + (if queued then multiset{b} else multiset{});
  }

  /** Until a type is switched on, a fresh logger writes nothing. */
  method FreshLoggerIsSilent(path: seq<char>, bType: byte, now: LocalTime, message: seq<char>)
    returns (written: Option<Content>, queued: seq<nat>)
    requires 0 < |path| && NoNul(path) && now.Valid()
    ensures written == None && queued == []
  {
    var log := new WLog(path, "log", false, 1);
    written := log.Trace(bType, true, now, message);
    queued := log.usedList;
  }

  /** Switched on, the type is written at once without a worker thread, and is silent again once removed. */
  method AppendThenRemove(path: seq<char>, bType: byte, now: LocalTime, message: seq<char>)
    returns (first: Option<Content>, second: Option<Content>)
    requires 0 < |path| && NoNul(path) && now.Valid() && bType < ELT_MAX
    ensures first == Some(LogLine(bType, now, message)) && second == None
  {
    var log := new WLog(path, "log", false, 1);
    log.AppendLogMask(bType);
    assert log.PeekLogMask(bType);
    first := log.Trace(bType, true, now, message);
    log.RemoveLogMask(bType);
    assert !log.PeekLogMask(bType);
    second := log.Trace(bType, true, now, message);
  }
}
