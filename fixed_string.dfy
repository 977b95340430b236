/** The fixed-capacity character buffer `String<MaxSize>`: a NUL-terminated array of
    `MaxSize` characters with a bounded `copy`, `append` and `length`, two scans over
    character sets, and the concatenation operators `+`, `*` and `/`. */
module FixedString {

  /** `static_cast<size_t>(-1)`: "no such index", and "no length given" for `copy`. */
  const InvalidStringIndex: nat := 0xFFFF_FFFF_FFFF_FFFF

  /** The characters of a C string proper: no terminator among them. */
  predicate NulFree(s: seq<char>) {
    forall i :: 0 <= i < |s| ==> s[i] != '\0'
  }

  function Min(a: nat, b: nat): nat {
    if a <= b then a else b
  }

  /** `Length`: the number of characters before the first NUL (all of them when there is none). */
  function CLength(s: seq<char>): (n: nat)
    ensures n <= |s|
    ensures NulFree(s[..n])
    ensures n < |s| ==> s[n] == '\0'
  {
    if s == [] || s[0] == '\0' then 0
    else
      1 + CLength(s[1..])
  }

  /** The three facts of `CLength`'s contract determine it. */
  lemma CLengthIs(s: seq<char>, k: nat)
    requires k <= |s| && NulFree(s[..k]) && (k < |s| ==> s[k] == '\0')
    ensures CLength(s) == k
  {
    var n := CLength(s);
    if n < k {
      assert false;
    }
  }

  /** The guard of `copy`'s loop at step `c`: the source has not reached its NUL, one slot is
      left for the terminator, and `c` is short of `stringLength` counted from the start of
      the source as well as from `stringOffset`. */
  predicate CopyContinues(maxSize: nat, srcLen: nat, offset: nat, stringLength: nat, stringOffset: nat, c: nat)
  {
    stringOffset + c < srcLen && c + offset < maxSize - 1 && c + stringOffset < stringLength && c < stringLength
  }

  /** The number of characters `copy` moves: the first step at which its loop guard fails. */
  function CopyCount(maxSize: nat, srcLen: nat, offset: nat, stringLength: nat, stringOffset: nat): (n: nat)
    requires offset < maxSize && stringOffset <= srcLen
    ensures forall c :: 0 <= c < n ==> CopyContinues(maxSize, srcLen, offset, stringLength, stringOffset, c)
    ensures !CopyContinues(maxSize, srcLen, offset, stringLength, stringOffset, n)
    ensures offset + n <= maxSize - 1 && stringOffset + n <= srcLen
  {
    Min(Min(srcLen - stringOffset, maxSize - 1 - offset),
        if stringLength > stringOffset then stringLength - stringOffset else 0)
  }

  /** `copy`'s `stringLength` after its default: `InvalidStringIndex` means the whole source. */
  function Requested(src: seq<char>, stringLength: nat): nat {
    if stringLength == InvalidStringIndex then |src| else stringLength
  }

  /** The buffer after `copy(src, offset, stringLength, stringOffset)`: the copied characters,
      a NUL right after them, and every other position as it was. */
  function Copied(buf: seq<char>, src: seq<char>, offset: nat, stringLength: nat, stringOffset: nat): (r: seq<char>)
    requires offset < |buf| && stringOffset <= |src|
    ensures |r| == |buf|
  {
    var n := CopyCount(|buf|, |src|, offset, Requested(src, stringLength), stringOffset);
    seq(|buf|, i requires 0 <= i < |buf| =>
      if offset <= i < offset + n then src[stringOffset + i - offset]
      else if i == offset + n then '\0'
      else buf[i])
  }

  /** Whatever precedes `offset`, the buffer after `copy` holds at most `MaxSize - 1`
      characters before its terminator: the NUL is always stored at `offset + n`. */
  lemma CopiedIsTerminated(buf: seq<char>, src: seq<char>, offset: nat, stringLength: nat, stringOffset: nat)
    requires offset < |buf| && stringOffset <= |src|
    ensures var n := CopyCount(|buf|, |src|, offset, Requested(src, stringLength), stringOffset);
      CLength(Copied(buf, src, offset, stringLength, stringOffset)) <= offset + n <= |buf| - 1
  {
    var n := CopyCount(|buf|, |src|, offset, Requested(src, stringLength), stringOffset);
    var r := Copied(buf, src, offset, stringLength, stringOffset);
    assert r[offset + n] == '\0';
  }

  /** When no NUL precedes `offset`, the text after `copy` is the old text up to `offset`
      followed by exactly the characters copied, and those are the source's from
      `stringOffset` on. */
  lemma CopiedText(buf: seq<char>, src: seq<char>, offset: nat, stringLength: nat, stringOffset: nat)
    requires offset < |buf| && stringOffset <= |src| && NulFree(src) && NulFree(buf[..offset])
    ensures var n := CopyCount(|buf|, |src|, offset, Requested(src, stringLength), stringOffset);
      var r := Copied(buf, src, offset, stringLength, stringOffset);
      CLength(r) == offset + n && r[..offset + n] == buf[..offset] + src[stringOffset..stringOffset + n]
  {
    var n := CopyCount(|buf|, |src|, offset, Requested(src, stringLength), stringOffset);
    var r := Copied(buf, src, offset, stringLength, stringOffset);
    var head, written := buf[..offset], r[..offset + n];
    assert written == head + src[stringOffset..stringOffset + n];
    assert NulFree(written) by {
      forall i | 0 <= i < |written| ensures written[i] != '\0' {
        if i < offset {
          assert written[i] == head[i];
        }
      }
    }
    CLengthIs(r, offset + n);
  }

  /** The text `append` produces from text `t` in a buffer of capacity `maxSize`. */
  function Appended(t: seq<char>, maxSize: nat, src: seq<char>, stringLength: nat, stringOffset: nat): seq<char>
    requires |t| < maxSize && stringOffset <= |src|
  {
    t + src[stringOffset..stringOffset + CopyCount(maxSize, |src|, |t|, Requested(src, stringLength), stringOffset)]
  }

  /** `append(x)` with its defaults: the old text followed by `x`, cut to the capacity. */
  lemma AppendedWhole(t: seq<char>, maxSize: nat, src: seq<char>)
    requires |t| < maxSize
    ensures var r := Appended(t, maxSize, src, InvalidStringIndex, 0);
      |r| == Min(|t| + |src|, maxSize - 1) && r == (t + src)[..|r|]
  {
    var n := CopyCount(maxSize, |src|, |t|, |src|, 0);
    assert (t + src)[..|t| + n] == t + src[..n];
  }

  /** With its defaults and room to spare, `append(x)` adds all of `x`. */
  lemma AppendedFits(t: seq<char>, maxSize: nat, src: seq<char>)
    requires |t| + |src| < maxSize
    ensures Appended(t, maxSize, src, InvalidStringIndex, 0) == t + src
  {
    AppendedWhole(t, maxSize, src);
  }

  /** The `String<MaxSize>` object: `mString` is its array; `MaxSize` is the array's length. */
  class String {
    const mString: array<char>

    /** `max_size()`: the template capacity `MaxSize`. */
    function MaxSize(): nat {
      mString.Length
    }

    /** A NUL lies inside the buffer, so `length()` stops within it. */
    predicate Terminated()
      reads mString
    {
      CLength(mString[..]) < mString.Length
    }

    /** The characters `length()` counts. */
    function Text(): (t: seq<char>)
      reads mString
      requires Terminated()
      ensures NulFree(t) && |t| < MaxSize()
    {
      mString[..CLength(mString[..])]
    }

    /** `String() = default`: the buffer is value-initialised, so all NUL. */
    constructor (size: nat)
      requires size >= 1
      ensures MaxSize() == size && fresh(mString)
      ensures forall i :: 0 <= i < size ==> mString[i] == '\0'
      ensures Terminated() && Text() == []
    {
      mString := new char[size](_ => '\0');
      new;
      assert mString[..][0] == '\0';
    }

    /** `String(const char (&)[N])`, `String(const String<N>&)`: an empty buffer, then `copy`. */
    constructor FromText(size: nat, s: seq<char>)
      requires size >= 1 && NulFree(s)
      ensures MaxSize() == size && fresh(mString)
      ensures Terminated() && Text() == s[..Min(|s|, size - 1)]
    {
      mString := new char[size](_ => '\0');
      new;
      ghost var before := mString[..];
      Copy(s, 0, InvalidStringIndex, 0);
      CopiedText(before, s, 0, InvalidStringIndex, 0);
    }

    /** `copy`: writes the source's characters from `stringOffset` on into the buffer from
        `offset` on, within the capacity and `stringLength`, then a NUL. */
    method Copy(src: seq<char>, offset: nat, stringLength: nat, stringOffset: nat)
      requires NulFree(src) && offset < MaxSize() && stringOffset <= |src|
      modifies mString
      ensures mString[..] == Copied(old(mString[..]), src, offset, stringLength, stringOffset)
      ensures Terminated()
    {
      var length := if stringLength == InvalidStringIndex then |src| else stringLength;
      ghost var n := CopyCount(mString.Length, |src|, offset, length, stringOffset);
      var c := 0;
      while stringOffset + c < |src| && c + offset < mString.Length - 1 && c + stringOffset < length && c < length
        invariant c <= n
        invariant forall i :: 0 <= i < mString.Length ==>
          mString[i] == if offset <= i < offset + c then src[stringOffset + i - offset] else old(mString[i])
      {
        mString[c + offset] := src[stringOffset + c];
        c := c + 1;
      }
      assert !CopyContinues(mString.Length, |src|, offset, length, stringOffset, c);
      assert c == n;
      mString[c + offset] := '\0';
      ghost var want := Copied(old(mString[..]), src, offset, stringLength, stringOffset);
      assert forall i :: 0 <= i < mString.Length ==> mString[i] == want[i];
      CopiedIsTerminated(old(mString[..]), src, offset, stringLength, stringOffset);
    }

    /** `append`: `copy` at the current `length()`. */
    method Append(src: seq<char>, stringLength: nat, stringOffset: nat)
      requires Terminated() && NulFree(src) && stringOffset <= |src|
      modifies mString
      ensures Terminated()
      ensures Text() == Appended(old(Text()), MaxSize(), src, stringLength, stringOffset)
    {
      ghost var before := mString[..];
      var length := Length();
      assert before[..length] == Text();
      Copy(src, length, stringLength, stringOffset);
      CopiedText(before, src, length, stringLength, stringOffset);
    }

    /** `length()`: the position of the first NUL. */
    method Length() returns (c: nat)
      requires Terminated()
      ensures c < MaxSize() && mString[c] == '\0'
      ensures forall i :: 0 <= i < c ==> mString[i] != '\0'
      ensures c == |Text()|
    {
      ghost var n := CLength(mString[..]);
      c := 0;
      while mString[c] != '\0'
        invariant c <= n
        invariant forall i :: 0 <= i < c ==> mString[i] != '\0'
        decreases n - c
      {
        assert mString[..][..n][c] == mString[c];
        c := c + 1;
      }
      CLengthIs(mString[..], c);
    }

    /** `is_empty()`: the first character is the terminator. */
    function IsEmpty(): (r: bool)
      reads mString
      requires MaxSize() >= 1
      ensures r <==> CLength(mString[..]) == 0
    {
      mString[0] == '\0'
    }

    /** `operator[] const`: inside the text it reads the text's character, and at the
        text's length it reads the terminator. */
    function At(index: nat): (ch: char)
      reads mString
      requires index < MaxSize()
      ensures ch == mString[..][index]
      ensures Terminated() && index < |Text()| ==> ch == Text()[index] && ch != '\0'
      ensures Terminated() && index == |Text()| ==> ch == '\0'
    {
      mString[index]
    }

    /** `operator[]` used as an lvalue. */
    method Set(index: nat, ch: char)
      requires index < MaxSize()
      modifies mString
      ensures mString[..] == old(mString[..])[index := ch]
    {
      mString[index] := ch;
    }

    /** `find_first_of_chars`: the first position before the terminator (or the end of the
        buffer) holding a character of `chars`, or `InvalidStringIndex`. */
    method FindFirstOfChars(chars: seq<char>) returns (index: nat)
      requires MaxSize() <= InvalidStringIndex && NulFree(chars)
      ensures var n := CLength(mString[..]);
        (index == InvalidStringIndex && forall i :: 0 <= i < n ==> mString[i] !in chars) ||
        (index < n && mString[index] in chars && forall i :: 0 <= i < index ==> mString[i] !in chars)
    {
      ghost var n := CLength(mString[..]);
      index := InvalidStringIndex;
      var i := 0;
      while i < mString.Length && mString[i] != '\0' && index == InvalidStringIndex
        invariant i <= n
        invariant index == InvalidStringIndex ==> forall j :: 0 <= j < i ==> mString[j] !in chars
        invariant index != InvalidStringIndex ==>
          index < i && index < n && mString[index] in chars && forall j :: 0 <= j < index ==> mString[j] !in chars
      {
        assert mString[..][..n][i] == mString[i];
        var k := 0;
        while k < |chars|
          invariant k <= |chars|
          invariant forall j :: 0 <= j < k ==> chars[j] != mString[i]
        {
          if mString[i] == chars[k] {
            index := i;
            break;
          }
          k := k + 1;
        }
        if index == InvalidStringIndex {
          assert mString[i] !in chars;
        }
        i := i + 1;
      }
    }

    /** `find_last_of_chars`: the last position in `1 .. length() - 1` holding a character of
        `chars`, or `InvalidStringIndex`; position 0 is never examined. */
    method FindLastOfChars(chars: seq<char>) returns (index: nat)
      requires MaxSize() <= InvalidStringIndex && Terminated() && |Text()| >= 1 && NulFree(chars)
      ensures var n := |Text()|;
        (index == InvalidStringIndex && forall i :: 1 <= i < n ==> mString[i] !in chars) ||
        (1 <= index < n && mString[index] in chars && forall i :: index < i < n ==> mString[i] !in chars)
    {
      var myLength := Length();
      index := InvalidStringIndex;
      var i := myLength - 1;
      while i > 0 && index == InvalidStringIndex
        invariant 0 <= i < myLength
        invariant index == InvalidStringIndex ==> forall j :: i < j < myLength ==> mString[j] !in chars
        invariant index != InvalidStringIndex ==>
          1 <= index < myLength && mString[index] in chars && forall j :: index < j < myLength ==> mString[j] !in chars
      {
        var k := 0;
        while k < |chars|
          invariant k <= |chars|
          invariant forall j :: 0 <= j < k ==> chars[j] != mString[i]
        {
          if mString[i] == chars[k] {
            index := i;
            break;
          }
          k := k + 1;
        }
        if index == InvalidStringIndex {
          assert mString[i] !in chars;
        }
        i := i - 1;
      }
    }
  }

  /** A `const char (&)[N]` literal, whose size `N` counts its terminator, or a `String<N>`. */
  datatype Operand = Literal(text: seq<char>) | Buffer(text: seq<char>, size: nat) {
    /** The template size the operand contributes: `N`. */
    function Size(): nat {
      if Literal? then |text| + 1 else size
    }

    /** A literal has no embedded NUL; a `String<N>` holds fewer than `N` characters. */
    predicate Valid() {
      NulFree(text) && |text| < Size()
    }
  }

  /** A `String` object seen as an operand. */
  function Of(s: String): (o: Operand)
    reads s.mString
    requires s.Terminated()
    ensures o.Valid() && o.Buffer? && o.Size() == s.MaxSize()
  {
    Buffer(s.Text(), s.MaxSize())
  }

  /** `operator +`: a `String<aSize + bSize - 1>` holding `a` then `b`. There is no
      overload for two literals. */
  method Plus(a: Operand, b: Operand) returns (r: String)
    requires a.Valid() && b.Valid() && !(a.Literal? && b.Literal?)
    ensures fresh(r) && fresh(r.mString) && r.Terminated()
    ensures r.MaxSize() == a.Size() + b.Size() - 1 && r.Text() == a.text + b.text
  {
    r := new String(a.Size() + b.Size() - 1);
    r.Append(a.text, InvalidStringIndex, 0);
    AppendedFits([], r.MaxSize(), a.text);
    r.Append(b.text, InvalidStringIndex, 0);
    AppendedFits(a.text, r.MaxSize(), b.text);
  }

  /** `operator *`: a `String<aSize + bSize>` holding `a`, a space, then `b`. */
  method Times(a: Operand, b: Operand) returns (r: String)
    requires a.Valid() && b.Valid() && !(a.Literal? && b.Literal?)
    ensures fresh(r) && fresh(r.mString) && r.Terminated()
    ensures r.MaxSize() == a.Size() + b.Size() && r.Text() == a.text + " " + b.text
  {
    r := Joined(a, " ", b);
  }

  /** `operator /`: a `String<aSize + bSize>` holding `a`, a slash, then `b`. Both overloads
      take a `String` on the left. */
  method Slash(a: Operand, b: Operand) returns (r: String)
    requires a.Valid() && b.Valid() && a.Buffer?
    ensures fresh(r) && fresh(r.mString) && r.Terminated()
    ensures r.MaxSize() == a.Size() + b.Size() && r.Text() == a.text + "/" + b.text
  {
    r := Joined(a, "/", b);
  }

  /** The body shared by `*` and `/`: three appends into a `String<aSize + bSize>`. */
  method Joined(a: Operand, separator: seq<char>, b: Operand) returns (r: String)
    requires a.Valid() && b.Valid() && |separator| == 1 && NulFree(separator)
    ensures fresh(r) && fresh(r.mString) && r.Terminated()
    ensures r.MaxSize() == a.Size() + b.Size() && r.Text() == a.text + separator + b.text
  {
    r := new String(a.Size() + b.Size());
    r.Append(a.text, InvalidStringIndex, 0);
    AppendedFits([], r.MaxSize(), a.text);
    r.Append(separator, InvalidStringIndex, 0);
    AppendedFits(a.text, r.MaxSize(), separator);
    r.Append(b.text, InvalidStringIndex, 0);
    AppendedFits(a.text + separator, r.MaxSize(), b.text);
  }
}
