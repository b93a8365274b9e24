/**
  Abstract view of the entries kept by the AESD circular buffer, and the
  specification of the two things the buffer is about: which entries are
  kept (the newest ones, at most the capacity) and how a character offset
  into their concatenation is mapped to one entry and a byte inside it.
 */
module BufferEntries {

  datatype Option<+T> = None | Some(value: T)

  /** One history slot: whether its buffer pointer is non-null, and its size in bytes. */
  datatype Entry = Entry(present: bool, size: nat)

  /** The slot as a zeroed structure leaves it: null pointer, size 0. */
  const Empty: Entry := Entry(false, 0)

  /** An entry that contributes bytes to the concatenated view: non-null and non-empty. */
  predicate Usable(e: Entry)
  {
    e.present && e.size > 0
  }

  /** Number of bytes an entry contributes to the concatenation. */
  function Weight(e: Entry): (w: nat)
    ensures w > 0 <==> Usable(e)
    ensures w <= e.size
  {
    if Usable(e) then e.size else 0
  }

  /** Length of the concatenation of the entries of s, oldest first. */
  function TotalSize(s: seq<Entry>): nat
  {
    if s == [] then 0 else Weight(s[0]) + TotalSize(s[1..])
  }

  lemma {:induction false} TotalSizeAppend(s: seq<Entry>, t: seq<Entry>)
    ensures TotalSize(s + t) == TotalSize(s) + TotalSize(t)
  {
    if s == [] {
      assert s + t == t;
    } else {
      assert (s + t)[1..] == s[1..] + t;
      TotalSizeAppend(s[1..], t);
    }
  }

  /** The size of a prefix grows by the weight of the next entry. */
  lemma TotalSizeStep(s: seq<Entry>, i: nat)
    requires i < |s|
    ensures TotalSize(s[..i + 1]) == TotalSize(s[..i]) + Weight(s[i])
  {
    assert s[..i + 1] == s[..i] + [s[i]];
    TotalSizeAppend(s[..i], [s[i]]);
    assert [s[i]][1..] == [];
  }

  /** A position in a sequence of entries: the entry's index and a byte offset inside it. */
  datatype Hit = Hit(index: nat, offset: nat)

  /** Moves a position k entries further along the sequence. */
  function Later(h: Option<Hit>, k: nat): (r: Option<Hit>)
    ensures r.None? <==> h.None?
  {
    match h
    case None => None
    case Some(Hit(i, o)) => Some(Hit(i + k, o))
  }

  /**
    The position h describes character c of the concatenation of s:
    entry h.index is usable, h.offset lies inside it, and the usable
    entries before it hold exactly c - h.offset bytes.
   */
  ghost predicate Holds(s: seq<Entry>, c: nat, h: Hit)
  {
    && h.index < |s|
    && Usable(s[h.index])
    && h.offset < s[h.index].size
    && c == TotalSize(s[..h.index]) + h.offset
  }

  /**
    Reference definition of the offset search: walk the entries oldest
    first, skip the unusable ones, and stop at the first one whose bytes
    reach past c.
   */
  function Locate(s: seq<Entry>, c: nat): Option<Hit>
    decreases |s|
  {
    if s == [] then None
    else if !Usable(s[0]) then Later(Locate(s[1..], c), 1)
    else if c < s[0].size then Some(Hit(0, c))
    else Later(Locate(s[1..], c - s[0].size), 1)
  }

  /** What Locate finds is the entry and byte that hold character c. */
  lemma {:induction false} LocateSound(s: seq<Entry>, c: nat)
    requires Locate(s, c).Some?
    ensures Holds(s, c, Locate(s, c).value)
  {
    var h := Locate(s, c).value;
    if !Usable(s[0]) {
      LocateSound(s[1..], c);
      var h' := Locate(s[1..], c).value;
      assert s[..h.index] == [s[0]] + s[1..][..h'.index];
      TotalSizeAppend([s[0]], s[1..][..h'.index]);
      assert [s[0]][1..] == [];
    } else if c < s[0].size {
      assert s[..0] == [];
    } else {
      LocateSound(s[1..], c - s[0].size);
      var h' := Locate(s[1..], c - s[0].size).value;
      assert s[..h.index] == [s[0]] + s[1..][..h'.index];
      TotalSizeAppend([s[0]], s[1..][..h'.index]);
      assert [s[0]][1..] == [];
    }
  }

  /** Locate finds nothing exactly when c is past the end of the concatenation. */
  lemma {:induction false} LocateNone(s: seq<Entry>, c: nat)
    ensures Locate(s, c).None? <==> c >= TotalSize(s)
  {
    if s == [] {
    } else if !Usable(s[0]) {
      LocateNone(s[1..], c);
    } else if c < s[0].size {
    } else {
      LocateNone(s[1..], c - s[0].size);
    }
  }

  /** Every position that holds character c is the one Locate returns: the answer is unique. */
  lemma {:induction false} LocateComplete(s: seq<Entry>, c: nat, h: Hit)
    requires Holds(s, c, h)
    ensures Locate(s, c) == Some(h)
  {
    if h.index == 0 {
      assert s[..0] == [];
    } else {
      var h' := Hit(h.index - 1, h.offset);
      assert s[..h.index] == [s[0]] + s[1..][..h'.index];
      TotalSizeAppend([s[0]], s[1..][..h'.index]);
      assert [s[0]][1..] == [];
      if Usable(s[0]) {
        LocateComplete(s[1..], c - s[0].size, h');
      } else {
        LocateComplete(s[1..], c, h');
      }
    }
  }

  /**
    A left-to-right search that has passed the first i entries, holding
    `running` bytes, and finds c inside usable entry i has found the
    answer Locate gives.
   */
  lemma LocateAt(s: seq<Entry>, c: nat, i: nat, running: nat)
    requires i < |s| && running == TotalSize(s[..i]) <= c
    requires Usable(s[i]) && c < running + s[i].size
    ensures Locate(s, c) == Some(Hit(i, c - running))
    ensures c < TotalSize(s)
  {
    LocateComplete(s, c, Hit(i, c - running));
    LocateNone(s, c);
  }

  /** The newest n entries of s, oldest first: what a ring of n slots retains. */
  function Keep(s: seq<Entry>, n: nat): (r: seq<Entry>)
    ensures |r| <= n && |r| <= |s|
    ensures |r| == n || |r| == |s|
  {
    if |s| <= n then s else s[|s| - n..]
  }

  /** What is kept is the tail of the history: its last entries, in order. */
  lemma KeepIsSuffix(s: seq<Entry>, n: nat, i: nat)
    requires i < |Keep(s, n)|
    ensures Keep(s, n)[i] == s[|s| - |Keep(s, n)| + i]
  {
  }

  /** Keeping the newest n after each append is the same as keeping them once at the end. */
  lemma KeepAppend(s: seq<Entry>, e: Entry, n: nat)
    requires n > 0
    ensures Keep(Keep(s, n) + [e], n) == Keep(s + [e], n)
  {
    var k := Keep(s, n);
    if |s| < n {
      assert k == s;
    } else {
      assert |k| == n;
      assert (k + [e])[1..] == k[1..] + [e];
      assert (s + [e])[|s| + 1 - n..] == s[|s| + 1 - n..] + [e];
      assert k[1..] == s[|s| + 1 - n..];
    }
  }
}
