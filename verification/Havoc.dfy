/** Runs of the havoc stage: any number of mutations of one buffer, in place. */
module Havoc {
  import opened Basics
  import opened Mutations
  import opened HavocBytes
  import opened HavocNumbers
  import opened HavocGrowth

  /** The operators, with what they take from outside: the dictionary, and the input to splice
      with. */
  datatype Operator =
    | Point(op: PointOp)
    | CloneCopy
    | CloneFixed
    | OverwriteCopy
    | OverwriteFixed
    | Switch
    | Del
    | Shuffle
    | DelOne
    | InsertOne
    | AsciiNum
    | InsertAsciiNum
    | ExtraOverwrite(extras: seq<seq<Byte>>)
    | ExtraInsert(extras: seq<seq<Byte>>)
    | SpliceOverwrite(splice: seq<Byte>)
    | SpliceInsert(splice: seq<Byte>)
  {
    /** The number of dictionary entries and the length of the other input are 32-bit words. */
    predicate Valid() {
      match this
      case ExtraOverwrite(extras) => |extras| < TWO_32
      case ExtraInsert(extras) => |extras| < TWO_32
      case SpliceOverwrite(splice) => |splice| < TWO_32
      case SpliceInsert(splice) => |splice| < TWO_32
      case _ => true
    }
  }

  /** What one step did to the input. `Miss` keeps it: `n` bytes did not fit at the place drawn. */
  datatype Edit =
    | Keep
    | Miss(at: nat, n: nat)
    | Insert(at: nat, block: seq<Byte>)
    | Replace(at: nat, block: seq<Byte>)
    | Substitute(at: nat, n: nat, block: seq<Byte>)
    | Cut(from: nat, n: nat)
    | Permute(off: nat, perm: seq<nat>)
    | Trade(a: nat, b: nat, len: nat)

  ghost predicate Becomes(s: seq<Byte>, e: Edit, t: seq<Byte>) {
    match e
    case Keep => t == s
    case Miss(_, _) => t == s
    case Insert(at, block) => at <= |s| && t == s[..at] + block + s[at..]
    case Replace(at, block) => at + |block| <= |s| && t == s[..at] + block + s[at + |block|..]
    case Substitute(at, n, block) => at + n <= |s| && t == s[..at] + block + s[at + n..]
    case Cut(from, n) => from + n <= |s| && t == s[..from] + s[from + n..]
    case Permute(off, perm) => IsPermutedBlock(s, t, off, perm) && SingleCycle(perm) && perm != []
    case Trade(a, b, n) => IsSwitched(s, t, a, b, n) && n > 0
  }

  /** How long the input is afterwards. */
  ghost function LengthAfter(len: nat, e: Edit): (r: int) {
    match e
    case Insert(_, block) => len + |block|
    case Substitute(_, n, block) => len - n + |block|
    case Cut(_, n) => len - n
    case _ => len
  }

  ghost predicate IsPart(block: seq<Byte>, s: seq<Byte>) {
    exists from: nat :: IsPartAt(block, s, from)
  }

  ghost predicate IsPartAt(block: seq<Byte>, s: seq<Byte>, from: nat) {
    from + |block| <= |s| && block == s[from..from + |block|]
  }

  ghost predicate IsFill(block: seq<Byte>) {
    forall i :: 0 <= i < |block| ==> block[i] == block[0]
  }

  /** What an operator may do to an input; only operators that find no room or nothing to work
      with keep it. */
  ghost predicate Permits(op: Operator, s: seq<Byte>, e: Edit, havoc: Settings, maxLen: nat) {
    match op
    case Point(op) =>
      if |s| < Width(op) then e == Keep
      else e.Replace? && e.at + Width(op) <= |s| && Changed(op, s[e.at..e.at + Width(op)], e.block)
    case CloneCopy =>
      if |s| + HAVOC_BLK_XL < maxLen then e.Insert? && e.at < |s| && Drawable(|s|, havoc, |e.block|) && IsPart(e.block, s) else e == Keep
    case CloneFixed =>
      if |s| + HAVOC_BLK_XL < maxLen then e.Insert? && e.at < |s| && Drawable(HAVOC_BLK_XL, havoc, |e.block|) && IsFill(e.block) else e == Keep
    case OverwriteCopy =>
      if |s| < 2 then e == Keep else e.Replace? && Drawable(|s| - 1, havoc, |e.block|) && IsPart(e.block, s)
    case OverwriteFixed =>
      if |s| < 2 then e == Keep else e.Replace? && Drawable(|s| - 1, havoc, |e.block|) && IsFill(e.block)
    case Switch => if |s| < 4 then e == Keep else e.Trade? && Drawable(SwitchLimit(|s|, e.a, e.b), havoc, e.len)
    case Del => if |s| < 2 then e == Keep else e.Cut? && Drawable(|s| - 1, havoc, e.n)
    case Shuffle => if |s| < 4 then e == Keep else e.Permute? && Drawable(|s| - 1, havoc, |e.perm|)
    case DelOne => if |s| < 2 then e == Keep else e.Cut? && e.n == 1
    case InsertOne => if |s| < 2 then e == Keep else e.Insert? && e.at < |s| && |e.block| == 1
    case AsciiNum =>
      if |s| < 4 || !HasDigit(s) then e == Keep
      else e.Substitute? && IsNumberAt(s, e.at, e.n) && exists v :: Altered(ValueAt(s, e.at, e.n), v) && e.block == Kept(Printed(v))
    case InsertAsciiNum =>
      if e.Miss? then e.at < |s| && 1 <= e.n <= 8 && |s| < e.at + e.n
      else e.Replace? && exists v: Word, n: nat :: 1 <= n <= 8 && e.at + n <= |s| && e.block == LastDigits(v, n)
    case ExtraOverwrite(extras) =>
      if e == Keep then extras == [] || exists i :: 0 <= i < |extras| && |extras[i]| > |s| else e.Replace? && e.block in extras
    case ExtraInsert(extras) =>
      if e == Keep then extras == [] || exists i :: 0 <= i < |extras| && |s| + |extras[i]| >= maxLen
      else e.Insert? && e.block in extras && |s| + |e.block| < maxLen
    case SpliceOverwrite(splice) =>
      if splice == [] then e == Keep
      else e.Replace? && (exists n :: Drawable(|splice| - 1, havoc, n) && |e.block| == Min(n, |s|)) && IsPart(e.block, splice)
    case SpliceInsert(splice) =>
      if splice == [] || |s| + HAVOC_BLK_XL >= maxLen then e == Keep else e.Insert? && Drawable(|splice|, havoc, |e.block|) && IsPart(e.block, splice)
  }

  ghost predicate Step(op: Operator, s: seq<Byte>, e: Edit, t: seq<Byte>, havoc: Settings, maxLen: nat) {
    Permits(op, s, e, havoc, maxLen) && Becomes(s, e, t)
  }

  /** What both buffers can hold. */
  function Capacity(buf: array<Byte>, tmp: array<Byte>): (r: nat) {
    Min(buf.Length, tmp.Length)
  }

  /** The buffers can hold the longest input asked for, and the present input, which is not
      empty. The size of the second buffer is a 32-bit word. */
  ghost predicate Fits(buf: array<Byte>, tmp: array<Byte>, len: nat, maxLen: nat) {
    buf != tmp && 1 <= len <= Capacity(buf, tmp) && maxLen <= Capacity(buf, tmp) && tmp.Length < TWO_32
  }

  /** The operators that look at the largest length before they make the input longer. */
  predicate MindsLength(op: Operator) { !op.InsertOne? && !op.AsciiNum? }

  /** They stay below it, or make the input no longer. */
  lemma MindedLength(op: Operator, s: seq<Byte>, e: Edit, havoc: Settings, maxLen: nat)
    requires Permits(op, s, e, havoc, maxLen) && MindsLength(op)
    ensures LengthAfter(|s|, e) <= |s| || LengthAfter(|s|, e) < maxLen
  {
    hide Drawable;
    match op
    case CloneCopy => if e.Insert? { DrawableBounds(|s|, havoc, |e.block|); }
    case CloneFixed => if e.Insert? { DrawableBounds(HAVOC_BLK_XL, havoc, |e.block|); }
    case SpliceInsert(splice) => if e.Insert? { DrawableBounds(|splice|, havoc, |e.block|); }
    case _ =>
  }

  /** The blocks that operators copy, fill, cut, shuffle or switch are not empty, nor longer than
      the largest block. */
  lemma BlocksAreBounded(op: Operator, s: seq<Byte>, e: Edit, havoc: Settings, maxLen: nat)
    requires Permits(op, s, e, havoc, maxLen) && s != []
    ensures op.CloneCopy? || op.CloneFixed? || op.SpliceInsert? ==> e == Keep || 1 <= |e.block| <= 32768
    ensures op.OverwriteCopy? || op.OverwriteFixed? ==> e == Keep || (1 <= |e.block| <= 32768 && |e.block| < |s|)
    ensures op.SpliceOverwrite? ==> e == Keep || (1 <= |e.block| <= 32768 && |e.block| <= |s|)
    ensures op.Del? ==> e == Keep || (1 <= e.n <= 32768 && e.n < |s|)
    ensures op.Shuffle? ==> e == Keep || (1 <= |e.perm| <= 32768 && |e.perm| < |s|)
    ensures op.Switch? ==> e == Keep || 1 <= e.len <= 32768
  {
    if e != Keep {
      hide Drawable;
      match op
      case CloneCopy => DrawableBounds(|s|, havoc, |e.block|);
      case CloneFixed => DrawableBounds(HAVOC_BLK_XL, havoc, |e.block|);
      case OverwriteCopy => DrawableBounds(|s| - 1, havoc, |e.block|);
      case OverwriteFixed => DrawableBounds(|s| - 1, havoc, |e.block|);
      case Switch => DrawableBounds(SwitchLimit(|s|, e.a, e.b), havoc, e.len);
      case Del => DrawableBounds(|s| - 1, havoc, e.n);
      case Shuffle => DrawableBounds(|s| - 1, havoc, |e.perm|);
      case SpliceOverwrite(splice) =>
        var n :| Drawable(|splice| - 1, havoc, n) && |e.block| == Min(n, |s|);
        DrawableBounds(|splice| - 1, havoc, n);
      case SpliceInsert(splice) => DrawableBounds(|splice|, havoc, |e.block|);
      case _ =>
    }
  }

  /** How many bytes the other operators can add at most. */
  function MayGrow(op: Operator): (n: nat) {
    if op.InsertOne? then 1 else if op.AsciiNum? then 3 else 0
  }

  function MayGrowBy(ops: seq<Operator>): (n: nat) {
    if ops == [] then 0 else MayGrowBy(ops[..|ops| - 1]) + MayGrow(ops[|ops| - 1])
  }

  lemma {:induction false} MayGrowPrefix(ops: seq<Operator>, n: nat)
    requires n <= |ops|
    ensures MayGrowBy(ops[..n]) <= MayGrowBy(ops)
  {
    if n < |ops| {
      MayGrowPrefix(ops[..|ops| - 1], n);
      assert ops[..|ops| - 1][..n] == ops[..n];
    } else {
      assert ops[..n] == ops;
    }
  }

  /** An operator adds no more than it may. */
  lemma GrowthIsBounded(op: Operator, s: seq<Byte>, e: Edit, havoc: Settings, maxLen: nat)
    requires Permits(op, s, e, havoc, maxLen)
    ensures LengthAfter(|s|, e) <= |s| + MayGrow(op) || LengthAfter(|s|, e) < maxLen
  {
    hide IsNumberAt, ValueAt, Altered, Longest, Kept, Printed, Shown, HasDigit;
    if op.AsciiNum? {
      GrowthOfNumbers(s, e, havoc, maxLen);
    } else if !op.InsertOne? {
      MindedLength(op, s, e, havoc, maxLen);
    }
  }

  /** The new number is no longer than the longest that the old one can become. */
  lemma NumberEditLength(s: seq<Byte>, e: Edit, havoc: Settings, maxLen: nat)
    requires Permits(AsciiNum, s, e, havoc, maxLen) && e.Substitute?
    ensures IsNumberAt(s, e.at, e.n) && e.at + e.n <= |s|
    ensures |e.block| <= Longest(ValueAt(s, e.at, e.n)) <= e.n + 3
  {
    hide IsNumberAt, ValueAt, Altered, Longest, Kept, Printed, HasDigit;
    NumberFits(s, e.at, e.n);
    var was := ValueAt(s, e.at, e.n);
    var v :| Altered(was, v) && e.block == Kept(Printed(v));
    ValueIsSigned(s, e.at, e.n);
    LongestIsLongest(was, v);
    NumberGrowsByThree(s, e.at, e.n);
  }

  lemma NumberFits(s: seq<Byte>, at: nat, n: nat)
    requires IsNumberAt(s, at, n)
    ensures n > 0 && at + n <= |s|
  {
  }

  lemma GrowthOfNumbers(s: seq<Byte>, e: Edit, havoc: Settings, maxLen: nat)
    requires Permits(AsciiNum, s, e, havoc, maxLen)
    ensures LengthAfter(|s|, e) <= |s| + 3
  {
    hide IsNumberAt, ValueAt, Altered, Longest, Kept, Printed, HasDigit;
    if e.Substitute? { NumberEditLength(s, e, havoc, maxLen); }
  }

  lemma ValueIsSigned(s: seq<Byte>, at: nat, n: nat)
    requires at + n <= |s|
    ensures -TWO_63 <= ValueAt(s, at, n) < TWO_63
  {
  }

  /** What a caller can look at: whether an operator can leave buffers of a capacity. */
  predicate CanLeave(op: Operator, s: seq<Byte>, capacity: nat) {
    (op.InsertOne? && |s| >= 2 && |s| == capacity) || (op.AsciiNum? && CanOutgrow(s, capacity))
  }

  lemma LeavingNeedsCondition(op: Operator, s: seq<Byte>, e: Edit, havoc: Settings, maxLen: nat, capacity: nat)
    requires |s| <= capacity && maxLen <= capacity && Permits(op, s, e, havoc, maxLen) && LengthAfter(|s|, e) > capacity
    ensures CanLeave(op, s, capacity)
  {
    hide IsNumberAt, ValueAt, Altered, Longest, Kept, Printed, HasDigit;
    if op.AsciiNum? {
      NumberEditLength(s, e, havoc, maxLen);
      NumberFits(s, e.at, e.n);
      assert OutgrowsAt(s, e.at, e.n, capacity);
    } else if MindsLength(op) {
      MindedLength(op, s, e, havoc, maxLen);
    }
  }

  /** The longest alteration of a number is an edit of the operator. */
  lemma LongestEdit(s: seq<Byte>, at: nat, n: nat, havoc: Settings, maxLen: nat) returns (e: Edit)
    requires |s| >= 4 && IsNumberAt(s, at, n)
    ensures Permits(AsciiNum, s, e, havoc, maxLen) && LengthAfter(|s|, e) == |s| - n + Longest(ValueAt(s, at, n))
  {
    NumberFits(s, at, n);
    hide Permits, IsNumberAt, ValueAt, Altered, Longest, Kept, Printed;
    var v := LongestIsReached(ValueAt(s, at, n));
    e := Substitute(at, n, Kept(Printed(v)));
    NumberEditIsPermitted(s, e, v, havoc, maxLen);
  }

  /** An operator can leave the buffers exactly under that condition on the input. */
  lemma LeavesExactlyWhen(op: Operator, s: seq<Byte>, havoc: Settings, maxLen: nat, capacity: nat)
    requires |s| <= capacity && maxLen <= capacity
    ensures CanLeave(op, s, capacity) <==> exists e :: Permits(op, s, e, havoc, maxLen) && LengthAfter(|s|, e) > capacity
  {
    hide CanOutgrow, IsNumberAt, ValueAt, Altered, Longest, Kept, Printed, HasDigit;
    if e :| Permits(op, s, e, havoc, maxLen) && LengthAfter(|s|, e) > capacity {
      LeavingNeedsCondition(op, s, e, havoc, maxLen, capacity);
    }
    if CanLeave(op, s, capacity) {
      if op.InsertOne? {
        assert Permits(op, s, Insert(0, [0]), havoc, maxLen) && LengthAfter(|s|, Insert(0, [0])) > capacity;
      } else {
        var at, n := PlaceToOutgrow(s, capacity);
        var e := LongestEdit(s, at, n, havoc, maxLen);
      }
    }
  }

  lemma PlaceToOutgrow(s: seq<Byte>, capacity: nat) returns (at: nat, n: nat)
    requires CanOutgrow(s, capacity)
    ensures |s| >= 4 && IsNumberAt(s, at, n) && at + n <= |s| && |s| - n + Longest(ValueAt(s, at, n)) > capacity
  {
    at, n :| 0 <= at < |s| && 0 < n <= |s| - at && OutgrowsAt(s, at, n, capacity);
  }

  /** "aaa0" can become "aaa-255": seven bytes out of four, whatever the largest length. */
  lemma NumberOutgrowsFourBytes(s: seq<Byte>, e: Edit, havoc: Settings, maxLen: nat)
    requires s == [97, 97, 97, 48] && e == Substitute(3, 1, [45, 50, 53, 53])
    ensures Permits(AsciiNum, s, e, havoc, maxLen) && LengthAfter(|s|, e) == 7 && CanLeave(AsciiNum, s, 6)
  {
    FourBytesEndInZero(s);
    MinusTwoFiveFive();
    hide Permits, IsNumberAt, ValueAt, Altered, Printed, Kept, CanOutgrow;
    NumberEditIsPermitted(s, e, -255, havoc, maxLen);
    NumberEditIsPermitted(s, e, -255, havoc, 0);
    LeavingNeedsCondition(AsciiNum, s, e, havoc, 0, 6);
  }

  lemma NumberEditIsPermitted(s: seq<Byte>, e: Edit, v: int, havoc: Settings, maxLen: nat)
    requires |s| >= 4 && e.Substitute? && IsNumberAt(s, e.at, e.n) && e.at + e.n <= |s|
    requires Altered(ValueAt(s, e.at, e.n), v) && e.block == Kept(Printed(v))
    ensures Permits(AsciiNum, s, e, havoc, maxLen)
  {
    assert IsDigit(s[e.at]) && HasDigit(s);
  }

  lemma FourBytesEndInZero(s: seq<Byte>)
    requires s == [97, 97, 97, 48]
    ensures IsNumberAt(s, 3, 1) && ValueAt(s, 3, 1) == 0
  {
    assert s[3..4] == [48] && Parsed([48][..0]) == 0;
    assert Parsed([48]) == 0;
  }

  lemma MinusTwoFiveFive()
    ensures Kept(Printed(-255)) == [45, 50, 53, 53] && Altered(0, -255)
  {
    assert Digits(255) == Digits(25) + [53] && Digits(25) == Digits(2) + [53];
    assert HavocNumbers.Moved(0, -255) == -255;
  }

  lemma LengthFollows(op: Operator, s: seq<Byte>, e: Edit, t: seq<Byte>, havoc: Settings, maxLen: nat)
    requires Step(op, s, e, t, havoc, maxLen)
    ensures |t| == LengthAfter(|s|, e)
  {
  }

  // ----- Copying

  ghost function Put(d: seq<Byte>, at: nat, src: seq<Byte>): (r: seq<Byte>)
    requires at + |src| <= |d|
    ensures |r| == |d|
  {
    d[..at] + src + d[at + |src|..]
  }

  method CopyTo(dst: array<Byte>, at: nat, src: seq<Byte>)
    requires at + |src| <= dst.Length
    modifies dst
    ensures dst[..] == Put(old(dst[..]), at, src)
  {
    Memcpy(dst, at, src);
  }

  /** Replaces a block within the input. */
  method Overwrite(buf: array<Byte>, len: nat, at: nat, block: seq<Byte>)
    requires at + |block| <= len <= buf.Length
    modifies buf
    ensures Becomes(old(buf[..len]), Replace(at, block), buf[..len])
  {
    ghost var d := buf[..];
    CopyTo(buf, at, block);
    assert buf[..len] == d[..len][..at] + block + d[..len][at + |block|..];
  }

  lemma PutTogether(d: seq<Byte>, head: seq<Byte>, block: seq<Byte>, tail: seq<Byte>)
    requires |head| + |block| + |tail| <= |d|
    ensures Put(Put(Put(d, 0, head), |head|, block), |head| + |block|, tail)[..|head| + |block| + |tail|] == head + block + tail
  {
  }

  lemma PutInPlace(d: seq<Byte>, len: nat, at: nat, block: seq<Byte>)
    requires at <= len && len + |block| <= |d|
    ensures Put(Put(d, at + |block|, d[at..len]), at, block)[..len + |block|] == d[..at] + block + d[at..len]
  {
  }

  /** Puts head, block and tail together in the second buffer and copies them back. */
  method Assemble(buf: array<Byte>, tmp: array<Byte>, head: seq<Byte>, block: seq<Byte>, tail: seq<Byte>) returns (len: nat)
    requires buf != tmp && |head| + |block| + |tail| <= Capacity(buf, tmp)
    modifies buf, tmp
    ensures len == |head| + |block| + |tail| && buf[..len] == head + block + tail
  {
    PutTogether(tmp[..], head, block, tail);
    hide Put;
    CopyTo(tmp, 0, head);
    CopyTo(tmp, |head|, block);
    CopyTo(tmp, |head| + |block|, tail);
    len := |head| + |block| + |tail|;
    assert tmp[..len] == tmp[..][..len];
    BringBack(buf, tmp, len);
  }

  method BringBack(buf: array<Byte>, tmp: array<Byte>, len: nat)
    requires buf != tmp && len <= buf.Length && len <= tmp.Length
    modifies buf
    ensures buf[..len] == tmp[..len]
  {
    CopyTo(buf, 0, tmp[..len]);
  }

  /** Inserts a block by way of the second buffer. */
  method InsertBlock(buf: array<Byte>, tmp: array<Byte>, len: nat, at: nat, block: seq<Byte>) returns (len': nat)
    requires buf != tmp && at <= len && len + |block| <= Capacity(buf, tmp)
    modifies buf, tmp
    ensures len' == len + |block| && Becomes(old(buf[..len]), Insert(at, block), buf[..len'])
  {
    ghost var s := buf[..len];
    assert s[..at] == buf[..at] && s[at..] == buf[at..len];
    len' := Assemble(buf, tmp, buf[..at], block, buf[at..len]);
  }

  /** Inserts a block in place: the tail moves up, and the block takes its room. */
  method InsertInPlace(buf: array<Byte>, len: nat, at: nat, block: seq<Byte>) returns (len': nat)
    requires at <= len && len + |block| <= buf.Length
    modifies buf
    ensures len' == len + |block| && Becomes(old(buf[..len]), Insert(at, block), buf[..len'])
  {
    ghost var d, s := buf[..], buf[..len];
    assert d[at..len] == buf[at..len] == s[at..] && s[..at] == d[..at];
    PutInPlace(d, len, at, block);
    hide Put;
    CopyTo(buf, at + |block|, buf[at..len]);
    CopyTo(buf, at, block);
    len' := len + |block|;
    assert buf[..len'] == buf[..][..len'];
  }

  method Delete(buf: array<Byte>, len: nat, from: nat, n: nat) returns (len': nat)
    requires from + n <= len <= buf.Length
    modifies buf
    ensures len' == len - n && Becomes(old(buf[..len]), Cut(from, n), buf[..len'])
  {
    CopyTo(buf, from, buf[from + n..len]);
    len' := len - n;
  }

  // ----- The operators

  /** A block of equal bytes: a random byte, or the one in front of the place. */
  method DrawFill(buf: array<Byte>, at: nat, n: nat) returns (block: seq<Byte>)
    requires at < buf.Length
    ensures |block| == n && IsFill(block)
  {
    var strat := RandBelow(2);
    var item: Byte;
    if strat != 0 {
      item := RandBelow(256);
    } else {
      item := buf[if at > 0 then at - 1 else 0];
    }
    block := seq(n, _ => item);
  }

  method DoPoint(op: PointOp, buf: array<Byte>, len: nat) returns (ghost e: Edit)
    requires 1 <= len <= buf.Length && len < TWO_32
    modifies buf
    ensures forall havoc, maxLen :: Step(Point(op), old(buf[..len]), e, buf[..len], havoc, maxLen)
  {
    hide Changed, Becomes;
    ghost var s := buf[..len];
    var n := Width(op);
    if len < n {
      KeepIsKeeping(s);
      return Keep;
    }
    var pos := RandBelow(len - n + 1);
    var before := buf[pos..pos + n];
    assert before == s[pos..pos + n];
    var block := Change(op, before);
    ChangedLength(op, before, block);
    Overwrite(buf, len, pos, block);
    e := Replace(pos, block);
  }

  lemma KeepIsKeeping(s: seq<Byte>)
    ensures Becomes(s, Keep, s)
  {
  }

  lemma ChangedLength(op: PointOp, before: seq<Byte>, after: seq<Byte>)
    requires Changed(op, before, after)
    ensures |after| == |before| == Width(op)
  {
  }

  method DoCloneCopy(buf: array<Byte>, tmp: array<Byte>, len: nat, maxLen: nat, havoc: Settings) returns (len': nat, ghost e: Edit)
    requires Fits(buf, tmp, len, maxLen)
    modifies buf, tmp
    ensures Fits(buf, tmp, len', maxLen) && Step(CloneCopy, old(buf[..len]), e, buf[..len'], havoc, maxLen)
  {
    if len + HAVOC_BLK_XL >= maxLen { return len, Keep; }
    var n := ChooseBlockLen(len, havoc);
    var from := RandBelow(len - n + 1);
    var to := RandBelow(len);
    var block := buf[from..from + n];
    assert IsPartAt(block, buf[..len], from);
    len' := InsertBlock(buf, tmp, len, to, block);
    e := Insert(to, block);
  }

  method DoCloneFixed(buf: array<Byte>, tmp: array<Byte>, len: nat, maxLen: nat, havoc: Settings) returns (len': nat, ghost e: Edit)
    requires Fits(buf, tmp, len, maxLen)
    modifies buf, tmp
    ensures Fits(buf, tmp, len', maxLen) && Step(CloneFixed, old(buf[..len]), e, buf[..len'], havoc, maxLen)
  {
    if len + HAVOC_BLK_XL >= maxLen { return len, Keep; }
    var n := ChooseBlockLen(HAVOC_BLK_XL, havoc);
    var to := RandBelow(len);
    var block := DrawFill(buf, to, n);
    len' := InsertBlock(buf, tmp, len, to, block);
    e := Insert(to, block);
  }

  method DoOverwriteCopy(buf: array<Byte>, len: nat, havoc: Settings) returns (ghost e: Edit)
    requires 1 <= len <= buf.Length && len < TWO_32
    modifies buf
    ensures forall maxLen :: Step(OverwriteCopy, old(buf[..len]), e, buf[..len], havoc, maxLen)
  {
    if len < 2 {
      KeepIsKeeping(buf[..len]);
      return Keep;
    }
    var n := ChooseBlockLen(len - 1, havoc);
    var from := RandBelow(len - n + 1);
    var to := RandBelow(len - n + 1);
    ghost var s := buf[..len];
    var block := buf[from..from + n];
    assert IsPartAt(block, s, from);
    CopyIsPermitted(s, to, block, havoc);
    hide Becomes, Permits;
    e := Replace(to, block);
    if from != to {
      Overwrite(buf, len, to, block);
    } else {
      assert block == s[to..to + n];
      ReplaceBySame(s, to, n);
    }
  }

  lemma CopyIsPermitted(s: seq<Byte>, to: nat, block: seq<Byte>, havoc: Settings)
    requires |s| >= 2 && Drawable(|s| - 1, havoc, |block|) && IsPart(block, s)
    ensures forall maxLen :: Permits(OverwriteCopy, s, Replace(to, block), havoc, maxLen)
  {
  }

  lemma ReplaceBySame(s: seq<Byte>, at: nat, n: nat)
    requires at + n <= |s|
    ensures Becomes(s, Replace(at, s[at..at + n]), s)
  {
    assert s == s[..at] + s[at..at + n] + s[at + n..];
  }

  method DoOverwriteFixed(buf: array<Byte>, len: nat, havoc: Settings) returns (ghost e: Edit)
    requires 1 <= len <= buf.Length && len < TWO_32
    modifies buf
    ensures forall maxLen :: Step(OverwriteFixed, old(buf[..len]), e, buf[..len], havoc, maxLen)
  {
    if len < 2 { return Keep; }
    var n := ChooseBlockLen(len - 1, havoc);
    var to := RandBelow(len - n + 1);
    var block := DrawFill(buf, to, n);
    Overwrite(buf, len, to, block);
    e := Replace(to, block);
  }

  method DoDel(buf: array<Byte>, len: nat, havoc: Settings) returns (len': nat, ghost e: Edit)
    requires 1 <= len <= buf.Length && len < TWO_32
    modifies buf
    ensures 1 <= len' <= len && forall maxLen :: Step(Del, old(buf[..len]), e, buf[..len'], havoc, maxLen)
  {
    if len < 2 { return len, Keep; }
    var n := ChooseBlockLen(len - 1, havoc);
    var from := RandBelow(len - n + 1);
    len' := Delete(buf, len, from, n);
    e := Cut(from, n);
  }

  method DoDelOne(buf: array<Byte>, len: nat) returns (len': nat, ghost e: Edit)
    requires 1 <= len <= buf.Length && len < TWO_32
    modifies buf
    ensures 1 <= len' <= len && forall havoc, maxLen :: Step(DelOne, old(buf[..len]), e, buf[..len'], havoc, maxLen)
  {
    if len < 2 { return len, Keep; }
    var from := RandBelow(len);
    len' := Delete(buf, len, from, 1);
    e := Cut(from, 1);
  }

  method DoInsertAsciiNum(buf: array<Byte>, len: nat) returns (ghost e: Edit)
    requires 1 <= len <= buf.Length && len < TWO_32
    modifies buf
    ensures forall havoc, maxLen :: Step(InsertAsciiNum, old(buf[..len]), e, buf[..len], havoc, maxLen)
  {
    var n := RandBelow(8);
    n := n + 1;
    var pos := RandBelow(len);
    if len < pos + n { return Miss(pos, n); }
    var v: Word :| true;
    var block := LastDigits(v, n);
    Overwrite(buf, len, pos, block);
    e := Replace(pos, block);
  }

  method DoExtraOverwrite(buf: array<Byte>, len: nat, extras: seq<seq<Byte>>) returns (ghost e: Edit)
    requires 1 <= len <= buf.Length && len < TWO_32
    requires |extras| < TWO_32
    modifies buf
    ensures forall havoc, maxLen :: Step(ExtraOverwrite(extras), old(buf[..len]), e, buf[..len], havoc, maxLen)
  {
    if extras == [] { return Keep; }
    var use := RandBelow(|extras|);
    if |extras[use]| > len { return Keep; }
    var at := RandBelow((len - |extras[use]| + 1) % TWO_32);
    Overwrite(buf, len, at, extras[use]);
    e := Replace(at, extras[use]);
  }

  method DoExtraInsert(buf: array<Byte>, tmp: array<Byte>, len: nat, maxLen: nat, ghost havoc: Settings, extras: seq<seq<Byte>>) returns (len': nat, ghost e: Edit)
    requires Fits(buf, tmp, len, maxLen)
    requires |extras| < TWO_32
    modifies buf
    ensures Fits(buf, tmp, len', maxLen) && Step(ExtraInsert(extras), old(buf[..len]), e, buf[..len'], havoc, maxLen)
  {
    if extras == [] { return len, Keep; }
    var use := RandBelow(|extras|);
    if len + |extras[use]| >= maxLen { return len, Keep; }
    var at := RandBelow(len + 1);
    len' := InsertInPlace(buf, len, at, extras[use]);
    e := Insert(at, extras[use]);
  }

  method DoSpliceOverwrite(buf: array<Byte>, len: nat, splice: seq<Byte>, havoc: Settings) returns (ghost e: Edit)
    requires 1 <= len <= buf.Length && len < TWO_32
    requires |splice| < TWO_32
    modifies buf
    ensures forall maxLen :: Step(SpliceOverwrite(splice), old(buf[..len]), e, buf[..len], havoc, maxLen)
  {
    if splice == [] { return Keep; }
    var n := ChooseBlockLen(|splice| - 1, havoc);
    ghost var drawn := n;
    if n > len { n := len; }
    assert Drawable(|splice| - 1, havoc, drawn) && n == Min(drawn, len);
    var from := RandBelow(|splice| - n + 1);
    var to := RandBelow(len - n + 1);
    var block := splice[from..from + n];
    assert IsPartAt(block, splice, from);
    Overwrite(buf, len, to, block);
    e := Replace(to, block);
  }

  method DoSpliceInsert(buf: array<Byte>, tmp: array<Byte>, len: nat, maxLen: nat, splice: seq<Byte>, havoc: Settings) returns (len': nat, ghost e: Edit)
    requires Fits(buf, tmp, len, maxLen)
    requires |splice| < TWO_32
    modifies buf, tmp
    ensures Fits(buf, tmp, len', maxLen) && Step(SpliceInsert(splice), old(buf[..len]), e, buf[..len'], havoc, maxLen)
  {
    if splice == [] || len + HAVOC_BLK_XL >= maxLen { return len, Keep; }
    var n := ChooseBlockLen(|splice|, havoc);
    var from := RandBelow(|splice| - n + 1);
    var to := RandBelow(len + 1);
    var block := splice[from..from + n];
    assert IsPartAt(block, splice, from);
    len' := InsertBlock(buf, tmp, len, to, block);
    e := Insert(to, block);
  }

  lemma PermutedPrefix(before: seq<Byte>, after: seq<Byte>, off: nat, perm: seq<nat>, len: nat)
    requires IsPermutedBlock(before, after, off, perm) && off + |perm| <= len <= |before|
    ensures IsPermutedBlock(before[..len], after[..len], off, perm)
  {
  }

  lemma SwitchedPrefix(before: seq<Byte>, after: seq<Byte>, a: nat, b: nat, n: nat, len: nat)
    requires IsSwitched(before, after, a, b, n) && a + n <= len && b + n <= len <= |before|
    ensures IsSwitched(before[..len], after[..len], a, b, n)
  {
  }

  method DoShuffle(buf: array<Byte>, len: nat, havoc: Settings) returns (ghost e: Edit)
    requires 1 <= len <= buf.Length && len < TWO_32
    modifies buf
    ensures forall maxLen :: Step(Shuffle, old(buf[..len]), e, buf[..len], havoc, maxLen)
  {
    hide IsPermutedBlock, SingleCycle;
    ghost var before, s := buf[..], buf[..len];
    ghost var off, perm := MutShuffle(buf, len, havoc);
    assert s == before[..len] && buf[..len] == buf[..][..len];
    if len < 4 {
      e := Keep;
    } else {
      PermutedPrefix(before, buf[..], off, perm, len);
      e := Permute(off, perm);
    }
  }

  method DoSwitch(buf: array<Byte>, len: nat, havoc: Settings) returns (ghost e: Edit)
    requires 1 <= len <= buf.Length && len < TWO_32
    modifies buf
    ensures forall maxLen :: Step(Switch, old(buf[..len]), e, buf[..len], havoc, maxLen)
  {
    hide IsSwitched;
    ghost var before, s := buf[..], buf[..len];
    ghost var a, b, n := MutSwitch(buf, len, havoc);
    assert s == before[..len] && buf[..len] == buf[..][..len];
    if len < 4 {
      e := Keep;
    } else {
      SwitchedPrefix(before, buf[..], a, b, n, len);
      e := Trade(a, b, n);
    }
  }

  /** Inserts one byte without regard to the largest length. The copies leave a buffer exactly
      when the input fills it. */
  method DoInsertOne(buf: array<Byte>, tmp: array<Byte>, len: nat, maxLen: nat, ghost havoc: Settings) returns (overrun: bool, len': nat, ghost e: Edit)
    requires Fits(buf, tmp, len, maxLen)
    modifies buf, tmp
    ensures overrun <==> len >= 2 && (len == buf.Length || len == tmp.Length)
    ensures Permits(InsertOne, old(buf[..len]), e, havoc, maxLen) && (overrun <==> LengthAfter(len, e) > Capacity(buf, tmp))
    ensures if overrun then buf[..] == old(buf[..]) && len' == len
            else Fits(buf, tmp, len', maxLen) && Step(InsertOne, old(buf[..len]), e, buf[..len'], havoc, maxLen)
  {
    if len < 2 { return false, len, Keep; }
    var to := RandBelow(len);
    var block := DrawFill(buf, to, 1);
    e := Insert(to, block);
    if len == buf.Length || len == tmp.Length { return true, len, e; }
    overrun := false;
    len' := InsertBlock(buf, tmp, len, to, block);
  }

  /** Replaces a number by another one, by way of the second buffer unless it is as long. */
  method SubstituteBlock(buf: array<Byte>, tmp: array<Byte>, len: nat, at: nat, n: nat, block: seq<Byte>) returns (len': nat)
    requires buf != tmp && at + n <= len <= Capacity(buf, tmp) && len - n + |block| <= Capacity(buf, tmp)
    modifies buf, tmp
    ensures len' == len - n + |block| && Becomes(old(buf[..len]), Substitute(at, n, block), buf[..len'])
  {
    ghost var s := buf[..len];
    if n == |block| {
      Overwrite(buf, len, at, block);
      len' := len;
    } else {
      assert s[..at] == buf[..at] && s[at + n..] == buf[at + n..len];
      len' := Assemble(buf, tmp, buf[..at], block, buf[at + n..len]);
    }
  }

  /** Alters a number of the input without regard to the largest length. */
  method DoAsciiNum(buf: array<Byte>, tmp: array<Byte>, len: nat, maxLen: nat, ghost havoc: Settings) returns (overrun: bool, len': nat, ghost e: Edit)
    requires Fits(buf, tmp, len, maxLen)
    modifies buf, tmp
    ensures Permits(AsciiNum, old(buf[..len]), e, havoc, maxLen) && (overrun <==> LengthAfter(len, e) > Capacity(buf, tmp))
    ensures overrun ==> CanOutgrow(old(buf[..len]), Capacity(buf, tmp))
    ensures LengthAfter(len, e) <= len + 3
    ensures if overrun then buf[..] == old(buf[..]) && len' == len
            else Fits(buf, tmp, len', maxLen) && Step(AsciiNum, old(buf[..len]), e, buf[..len'], havoc, maxLen)
  {
    hide IsNumberAt, HasDigit, ValueAt, Altered;
    if len < 4 { return false, len, Keep; }
    var found, at, n := FindNumber(buf, len);
    if !found { return false, len, Keep; }
    NumberFits(buf[..len], at, n);
    var v := ReadNumber(buf, len, at, n);
    var w := Alter(v);
    var block := Kept(Printed(w));
    e := Substitute(at, n, block);
    GrowthOfNumbers(buf[..len], e, havoc, maxLen);
    if len - n + |block| > Capacity(buf, tmp) {
      LeavingNeedsCondition(AsciiNum, buf[..len], e, havoc, maxLen, Capacity(buf, tmp));
      return true, len, e;
    }
    overrun := false;
    len' := SubstituteBlock(buf, tmp, len, at, n, block);
  }

  /** One attempt with the operator that was drawn. It leaves the buffers only when the input
      lets its operator do so, and adds no more than its operator may. */
  method Attempt(op: Operator, buf: array<Byte>, tmp: array<Byte>, len: nat, maxLen: nat, havoc: Settings)
    returns (overrun: bool, len': nat, ghost e: Edit)
    requires Fits(buf, tmp, len, maxLen) && op.Valid()
    modifies buf, tmp
    ensures Permits(op, old(buf[..len]), e, havoc, maxLen) && (overrun <==> LengthAfter(len, e) > Capacity(buf, tmp))
    ensures !overrun ==> Fits(buf, tmp, len', maxLen) && Step(op, old(buf[..len]), e, buf[..len'], havoc, maxLen)
    ensures overrun ==> CanLeave(op, old(buf[..len]), Capacity(buf, tmp))
    ensures LengthAfter(len, e) <= len + MayGrow(op) || LengthAfter(len, e) < maxLen
  {
    ghost var s := buf[..len];
    hide Permits, Step, CanOutgrow;
    if op.InsertOne? {
      overrun, len', e := DoInsertOne(buf, tmp, len, maxLen, havoc);
    } else if op.AsciiNum? {
      overrun, len', e := DoAsciiNum(buf, tmp, len, maxLen, havoc);
    } else {
      len', e := AttemptWithin(op, buf, tmp, len, maxLen, havoc);
      StepPermits(op, s, e, buf[..len'], havoc, maxLen);
      LengthFollows(op, s, e, buf[..len'], havoc, maxLen);
      overrun := false;
    }
    GrowthIsBounded(op, s, e, havoc, maxLen);
    if overrun { LeavingNeedsCondition(op, s, e, havoc, maxLen, Capacity(buf, tmp)); }
  }

  lemma StepPermits(op: Operator, s: seq<Byte>, e: Edit, t: seq<Byte>, havoc: Settings, maxLen: nat)
    requires Step(op, s, e, t, havoc, maxLen)
    ensures Permits(op, s, e, havoc, maxLen)
  {
  }

  method AttemptWithin(op: Operator, buf: array<Byte>, tmp: array<Byte>, len: nat, maxLen: nat, havoc: Settings) returns (len': nat, ghost e: Edit)
    requires Fits(buf, tmp, len, maxLen) && MindsLength(op) && op.Valid()
    modifies buf, tmp
    ensures Fits(buf, tmp, len', maxLen) && Step(op, old(buf[..len]), e, buf[..len'], havoc, maxLen)
  {
    hide Step;
    len' := len;
    match op
    case Point(p) => e := DoPoint(p, buf, len);
    case CloneCopy => len', e := DoCloneCopy(buf, tmp, len, maxLen, havoc);
    case CloneFixed => len', e := DoCloneFixed(buf, tmp, len, maxLen, havoc);
    case OverwriteCopy => e := DoOverwriteCopy(buf, len, havoc);
    case OverwriteFixed => e := DoOverwriteFixed(buf, len, havoc);
    case Switch => e := DoSwitch(buf, len, havoc);
    case Del => len', e := DoDel(buf, len, havoc);
    case Shuffle => e := DoShuffle(buf, len, havoc);
    case DelOne => len', e := DoDelOne(buf, len);
    case InsertAsciiNum => e := DoInsertAsciiNum(buf, len);
    case ExtraOverwrite(extras) => e := DoExtraOverwrite(buf, len, extras);
    case ExtraInsert(extras) => len', e := DoExtraInsert(buf, tmp, len, maxLen, havoc, extras);
    case SpliceOverwrite(splice) => e := DoSpliceOverwrite(buf, len, splice, havoc);
    case SpliceInsert(splice) => len', e := DoSpliceInsert(buf, tmp, len, maxLen, splice, havoc);
  }

  /** A run of attempts, as far as it went: every one did to the input what its operator may do.
      The input was never empty and never got longer than the largest length and what the
      operators so far may add. */
  ghost predicate Went(ops: seq<Operator>, history: seq<seq<Byte>>, edits: seq<Edit>, capacity: nat, havoc: Settings, maxLen: nat) {
    var n := |history| - 1;
    && 0 <= n <= |ops| && n <= |edits|
    && (forall i :: 0 <= i <= n ==> 1 <= |history[i]| <= capacity && |history[i]| <= maxLen + MayGrowBy(ops[..i]))
    && (forall i :: 0 <= i < n ==> Step(ops[i], history[i], edits[i], history[i + 1], havoc, maxLen))
  }

  /** A whole run: it stopped early exactly at an attempt whose result the buffers cannot hold,
      which its operator and the input before it allow. */
  ghost predicate Explains(ops: seq<Operator>, history: seq<seq<Byte>>, edits: seq<Edit>, overrun: bool, capacity: nat, havoc: Settings, maxLen: nat) {
    var n := |history| - 1;
    && Went(ops, history, edits, capacity, havoc, maxLen)
    && (if overrun then |edits| == n + 1 <= |ops| else |edits| == n == |ops|)
    && (overrun ==> Permits(ops[n], history[n], edits[n], havoc, maxLen) && LengthAfter(|history[n]|, edits[n]) > capacity)
    && (overrun ==> CanLeave(ops[n], history[n], capacity))
  }

  lemma WentOn(ops: seq<Operator>, history: seq<seq<Byte>>, edits: seq<Edit>, e: Edit, t: seq<Byte>, capacity: nat, havoc: Settings, maxLen: nat)
    requires Went(ops, history, edits, capacity, havoc, maxLen) && |edits| == |history| - 1 < |ops|
    requires Step(ops[|edits|], history[|edits|], e, t, havoc, maxLen) && 1 <= |t| <= capacity && |t| <= maxLen + MayGrowBy(ops[..|history|])
    ensures Went(ops, history + [t], edits + [e], capacity, havoc, maxLen)
  {
    hide Step, MayGrowBy;
  }

  lemma WentBack(ops: seq<Operator>, history: seq<seq<Byte>>, edits: seq<Edit>, e: Edit, capacity: nat, havoc: Settings, maxLen: nat)
    requires Went(ops, history, edits, capacity, havoc, maxLen) && |edits| == |history| - 1
    ensures Went(ops, history, edits + [e], capacity, havoc, maxLen) && (edits + [e])[|edits|] == e
  {
    hide Step, MayGrowBy;
  }

  lemma WentLength(ops: seq<Operator>, history: seq<seq<Byte>>, edits: seq<Edit>, capacity: nat, havoc: Settings, maxLen: nat)
    requires Went(ops, history, edits, capacity, havoc, maxLen)
    ensures |history| > 0 && |history[|history| - 1]| <= maxLen + MayGrowBy(ops[..|history| - 1])
  {
  }

  lemma WentNowhere(ops: seq<Operator>, s: seq<Byte>, capacity: nat, havoc: Settings, maxLen: nat)
    requires 1 <= |s| <= capacity && |s| <= maxLen
    ensures Went(ops, [s], [], capacity, havoc, maxLen)
  {
  }

  method RunAttempts(ops: seq<Operator>, buf: array<Byte>, tmp: array<Byte>, len: nat, maxLen: nat, havoc: Settings)
    returns (overrun: bool, len': nat, ghost history: seq<seq<Byte>>, ghost edits: seq<Edit>)
    requires Fits(buf, tmp, len, maxLen) && len <= maxLen && forall i :: 0 <= i < |ops| ==> ops[i].Valid()
    modifies buf, tmp
    ensures Explains(ops, history, edits, overrun, Capacity(buf, tmp), havoc, maxLen) && history[0] == old(buf[..len])
    ensures maxLen + MayGrowBy(ops) <= Capacity(buf, tmp) ==> !overrun
    ensures !overrun ==> len' <= buf.Length && history[|ops|] == buf[..len']
  {
    hide Step, Permits, LengthAfter, CanLeave, MayGrow, MayGrowBy, Went, Operator.Valid;
    ghost var capacity := Capacity(buf, tmp);
    len', history, edits := len, [buf[..len]], [];
    WentNowhere(ops, buf[..len], capacity, havoc, maxLen);
    for k := 0 to |ops|
      invariant Fits(buf, tmp, len', maxLen) && |edits| == k && |history| == k + 1
      invariant history[0] == old(buf[..len]) && history[k] == buf[..len']
      invariant Went(ops, history, edits, capacity, havoc, maxLen)
    {
      ghost var e, s;
      s := buf[..len'];
      overrun, len', e := Attempt(ops[k], buf, tmp, len', maxLen, havoc);
      WentLength(ops, history, edits, capacity, havoc, maxLen);
      MayGrowStep(ops, k);
      if overrun {
        MayGrowPrefix(ops, k + 1);
        WentBack(ops, history, edits, e, capacity, havoc, maxLen);
        edits := edits + [e];
        return;
      }
      LengthFollows(ops[k], s, e, buf[..len'], havoc, maxLen);
      WentOn(ops, history, edits, e, buf[..len'], capacity, havoc, maxLen);
      history, edits := history + [buf[..len']], edits + [e];
    }
    overrun := false;
  }

  lemma MayGrowStep(ops: seq<Operator>, k: nat)
    requires k < |ops|
    ensures MayGrowBy(ops[..k + 1]) == MayGrowBy(ops[..k]) + MayGrow(ops[k])
  {
    assert ops[..k + 1][..k] == ops[..k];
  }

  /** With operators that mind the largest length only, nothing is added to it. */
  lemma {:induction false} MindingAddsNothing(ops: seq<Operator>)
    requires forall i :: 0 <= i < |ops| ==> MindsLength(ops[i])
    ensures MayGrowBy(ops) == 0
  {
    if ops != [] { MindingAddsNothing(ops[..|ops| - 1]); }
  }

  lemma MindingKeepsLength(ops: seq<Operator>, history: seq<seq<Byte>>, edits: seq<Edit>, overrun: bool, capacity: nat, havoc: Settings, maxLen: nat)
    requires Explains(ops, history, edits, overrun, capacity, havoc, maxLen) && forall i :: 0 <= i < |ops| ==> MindsLength(ops[i])
    ensures MayGrowBy(ops) == 0 && forall i :: 0 <= i < |history| ==> |history[i]| <= maxLen
  {
    MindingAddsNothing(ops);
    hide Step, Permits, MayGrowBy;
    forall i | 0 <= i < |history|
      ensures |history[i]| <= maxLen
    {
      MayGrowPrefix(ops, i);
    }
  }

  /** The whole mutation of an input: any attempts; an empty input is left alone. */
  method Mutate(ops: seq<Operator>, buf: array<Byte>, tmp: array<Byte>, len: nat, maxLen: nat, havoc: Settings)
    returns (overrun: bool, len': nat, ghost history: seq<seq<Byte>>, ghost edits: seq<Edit>)
    requires buf != tmp && len <= maxLen <= Capacity(buf, tmp) && tmp.Length < TWO_32
    requires forall i :: 0 <= i < |ops| ==> ops[i].Valid()
    modifies buf, tmp
    ensures len == 0 ==> !overrun && len' == 0 && buf[..] == old(buf[..])
    ensures len > 0 ==> Explains(ops, history, edits, overrun, Capacity(buf, tmp), havoc, maxLen) && history[0] == old(buf[..len])
    ensures len > 0 && !overrun ==> len' <= buf.Length && history[|ops|] == buf[..len']
    ensures maxLen + MayGrowBy(ops) <= Capacity(buf, tmp) ==> !overrun
    ensures (forall i :: 0 <= i < |ops| ==> MindsLength(ops[i])) ==>
              !overrun && len' <= maxLen && forall i :: 0 <= i < |history| ==> |history[i]| <= maxLen
  {
    if len == 0 { return false, 0, [], []; }
    hide Explains;
    overrun, len', history, edits := RunAttempts(ops, buf, tmp, len, maxLen, havoc);
    ExplainsStarts(ops, history, edits, overrun, Capacity(buf, tmp), havoc, maxLen);
    if forall i :: 0 <= i < |ops| ==> MindsLength(ops[i]) { MindingKeepsLength(ops, history, edits, overrun, Capacity(buf, tmp), havoc, maxLen); }
  }

  lemma ExplainsStarts(ops: seq<Operator>, history: seq<seq<Byte>>, edits: seq<Edit>, overrun: bool, capacity: nat, havoc: Settings, maxLen: nat)
    requires Explains(ops, history, edits, overrun, capacity, havoc, maxLen)
    ensures 0 < |history| && (!overrun ==> |history| == |ops| + 1 && |history[|ops|]| <= maxLen + MayGrowBy(ops))
  {
    assert ops[..|ops|] == ops;
  }
}
