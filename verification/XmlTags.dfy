/** xml.c: allocating and freeing tags and symbols, and parsing a text in place. */
module XmlTags {
  import opened Bytes
  import opened XmlText
  import opened XmlPools

  class Xml {
    var tags: seq<Record>
    var tagsFree: int
    var symbols: seq<Symbol>
    ghost var free: seq<int>
    ghost var used: multiset<int>            // the records of all tags handed out
    ghost var names: multiset<seq<Byte>>     // the strings of all tags handed out
    ghost var starved: bool                  // some request for tag records has failed

    ghost predicate Valid()
      reads this
    {
      Conserved(|tags|, used, free) && FreeList(tags, tagsFree, free) && Counted(symbols, names)
    }

    constructor ()
      ensures Valid() && used == multiset{} && names == multiset{} && symbols == [] && !starved
    {
      tags, tagsFree, symbols := [], NIL, [];
      free, used, names, starved := [], multiset{}, multiset{}, false;
    }

    method Malloc() returns (ok: bool)
      modifies `starved
      ensures starved == (old(starved) || !ok)
    {
      ok := *;
      if !ok {
        starved := true;
      }
    }

    /** A new block of records, linked into a free list. */
    method Refill()
      requires Valid() && tagsFree == NIL
      modifies `tags, `tagsFree, `free
      ensures Valid() && tagsFree != NIL && Kept(old(tags), tags, used)
    {
      hide Conserved, Counted, FreeList, Fresh;
      NoneFree(tags, free);
      var base, cnt := |tags|, 0;
      ghost var t0 := tags;
      while cnt < PER_BLOCK
        invariant 0 <= cnt <= PER_BLOCK && |tags| == base + cnt && tags[..base] == t0
        invariant forall j | base <= j < base + cnt :: tags[j].next == j + 1
      {
        tags := tags + [Record(None, None, NIL, base + cnt + 1)];
        cnt := cnt + 1;
      }
      tags := tags[base + PER_BLOCK - 1 := tags[base + PER_BLOCK - 1].(next := NIL)];
      tagsFree := base;
      free := Fresh(base, PER_BLOCK);
      RefillConserved(base, used, PER_BLOCK);
      FreshList(tags, base, PER_BLOCK);
    }

    method NewTag() returns (a: int)
      requires Valid()
      modifies `tags, `tagsFree, `free, `used, `starved
      ensures Valid() && (old(starved) ==> starved) && Kept(old(tags), tags, old(used))
      ensures a == NIL ==> starved && used == old(used)
      ensures a != NIL ==> used == Sum(multiset{a}, old(used)) && 0 <= a < |tags|
    {
      hide Conserved, Counted, FreeList;
      if tagsFree == NIL {
        var ok := Malloc();
        if !ok {
          return NIL;
        }
        Refill();
      }
      a := tagsFree;
      HeadIsFree(tags, a, used, free);
      tagsFree := tags[a].next;
      used := used + multiset{a};
      free := free[1..];
    }

    /** FindSymbol: the index of the symbol, or |symbols|. */
    method FindSymbol(name: seq<Byte>) returns (i: nat)
      ensures i == Lookup(symbols, name)
    {
      i := 0;
      while i < |symbols| && symbols[i].name != name
        invariant i <= |symbols| && Lookup(symbols, name) == i + Lookup(symbols[i..], name)
      {
        assert symbols[i..][1..] == symbols[i + 1..];
        i := i + 1;
      }
    }

    method NewSymbol(name: seq<Byte>)
      requires Valid()
      modifies `symbols, `names
      ensures Valid() && names == old(names) + multiset{name}
    {
      hide Conserved, Counted, FreeList;
      ReferencedCounted(symbols, names, name);
      ghost var want := Referenced(symbols, name);
      var i := FindSymbol(name);
      if i == |symbols| {
        symbols := [Symbol(name, 0)] + symbols;
        i := 0;
      }
      symbols := symbols[i := symbols[i].(refCount := symbols[i].refCount + 1)];
      names := names + multiset{name};
      assert symbols == want;
    }

    method FreeSymbol(name: seq<Byte>)
      requires Valid() && name in names
      modifies `symbols, `names
      ensures Valid() && names == old(names) - multiset{name}
    {
      hide Conserved, Counted, FreeList;
      ReleasedCounted(symbols, names, name);
      ghost var want := Released(symbols, name);
      var i := FindSymbol(name);
      names := names - multiset{name};
      if i < |symbols| {
        symbols := symbols[i := symbols[i].(refCount := symbols[i].refCount - 1)];
        if symbols[i].refCount == 0 {
          symbols := symbols[..i] + symbols[i + 1..];
        }
      }
      assert symbols == want;
    }

    /** XMLFreeTag: gives back every record and every symbol reference of the list. */
    method XMLFreeTag(p: int, ghost ns: seq<Node>, ghost others: multiset<int>, ghost otherNames: multiset<seq<Byte>>)
      requires Valid() && Holds(tags, p, ns)
      requires used == Sum(Addresses(ns), others) && names == Sum(Names(ns), otherNames)
      modifies `tags, `tagsFree, `symbols, `free, `used, `names
      ensures Valid() && used == others && names == otherNames && Kept(old(tags), tags, others)
      decreases ns
    {
      hide Conserved, Counted, FreeList, Holds, Addresses, Names, Kept, Sum, One;
      if p == NIL {
        NothingHeld(tags, ns, others, otherNames);
        SameKept(tags, others);
        return;
      }
      ghost var t0 := tags;
      HeadParts(tags, p, ns);
      ghost var kids, rest := ns[0].kids, ns[1..];
      ghost var A, B, h := Addresses(kids), Addresses(rest), multiset{p};
      Shuffle(h, A, B, others);
      Shuffle(One(ns[0].name), Names(kids), Names(rest), otherNames);
      FreeName(tags[p].name, Sum(Names(kids), Sum(Names(rest), otherNames)));
      XMLFreeTag(tags[p].tag, kids, Sum(B, Sum(h, others)), Sum(Names(rest), otherNames));
      ghost var t1 := tags;
      KeptPart(t0, t1, t0[p].next, rest, Sum(h, others));
      KeptUnder(t0, t1, B, Sum(h, others));
      SameRecord(t0, t1, p, others);
      XMLFreeTag(tags[p].next, rest, Sum(h, others), otherNames);
      KeptAcross(t0, t1, tags, Sum(h, others));
      KeptUnder(t0, tags, h, others);
      GivenBack(tags, tagsFree, others, free, p);
      KeptBut(t0, tags, others, p, Record(None, None, NIL, tagsFree));
      tags := tags[p := Record(None, None, NIL, tagsFree)];
      tagsFree := p;
      free := [p] + free;
      used := others;
    }

    method FreeName(name: Option<seq<Byte>>, ghost otherNames: multiset<seq<Byte>>)
      requires Valid() && names == Sum(One(name), otherNames)
      modifies `symbols, `names
      ensures Valid() && names == otherNames
    {
      hide Conserved, Counted, FreeList;
      if name.Some? {
        assert name.value in names;
        FreeSymbol(name.value);
        assert names == otherNames;
      }
    }

    // ----- parsing

    /** The scanning loops of GetNextTag. */
    method ScanFor(buffer: array<Byte>, pos: nat, c: Byte, ghost s: seq<Byte>) returns (i: nat)
      requires pos <= buffer.Length && Unread(s, buffer[..], pos) && Ends(s, pos)
      ensures i == Find(s, pos, c) && i < buffer.Length && buffer[i] == s[i] && (s[i] == NUL || s[i] == c)
      ensures s[i] != NUL ==> Ends(s, i + 1)
    {
      i := pos;
      assert forall j | pos <= j < |s| :: buffer[j] == buffer[..][j] == s[j];
      while buffer[i] != NUL && buffer[i] != c
        invariant pos <= i < buffer.Length && forall j | pos <= j < i :: s[j] != NUL && s[j] != c
        decreases buffer.Length - i
      {
        EndsLater(s, pos, i + 1);
        i := i + 1;
      }
      FindIs(s, pos, c, i);
      if s[i] != NUL {
        EndsLater(s, pos, i + 1);
      }
    }

    /** GetNextTag: overwrites the '>' of the tag it finds. */
    method GetNextTag(buffer: array<Byte>, pos: nat, ghost s: seq<Byte>) returns (t: Option<(nat, nat)>)
      requires pos <= buffer.Length && Unread(s, buffer[..], pos) && Ends(s, pos)
      modifies buffer
      ensures t == NextTag(s, pos)
      ensures t.None? ==> buffer[..] == old(buffer[..])
      ensures t.Some? ==> pos <= t.value.0 < t.value.1 < buffer.Length
      ensures t.Some? ==> buffer[..] == old(buffer[..])[t.value.1 := NUL] && Ends(s, t.value.1 + 1)
    {
      hide Ends;
      var cnt := ScanFor(buffer, pos, OPEN, s);
      if buffer[cnt] == NUL {
        return None;
      }
      var cnt2 := ScanFor(buffer, cnt + 1, CLOSE, s);
      if buffer[cnt2] == NUL {
        return None;
      }
      buffer[cnt2] := NUL;
      return Some((cnt, cnt2));
    }

    /** FixDataMatchingTag: passes the matching end tag and leaves the data before it as a C string. */
    method FixDataMatchingTag(buffer: array<Byte>, pos: nat, tag: seq<Byte>, ghost s: seq<Byte>) returns (e: Option<nat>)
      requires pos <= buffer.Length && Unread(s, buffer[..], pos) && Ends(s, pos)
      modifies buffer
      ensures e == EndOfData(s, pos, tag) && Cut(old(buffer[..]), buffer[..], pos)
      ensures e.Some? ==> Unread(s, buffer[..], e.value) && Ends(s, e.value)
      ensures e.Some? ==> NextTag(s, pos).Some? && CString(buffer[..], pos) == DataAt(s, pos, tag)
      ensures e.Some? ==> pos <= e.value <= buffer.Length && Find(buffer[..], pos, NUL) < e.value
    {
      hide Ends, EndOfData, NextTag, DataAt, CString, Find;
      ghost var b0 := buffer[..];
      var start := pos;
      while true
        invariant Cut(b0, buffer[..], pos) && start <= buffer.Length && Passing(s, buffer[..], pos, start, tag)
        decreases buffer.Length - start
      {
        ghost var b1 := buffer[..];
        var t := GetNextTag(buffer, start, s);
        if t.None? {
          NoEnd(s, start, tag);
          return None;
        }
        var (a, b) := t.value;
        SameName(s, b1, start, (a, b));
        assert buffer[a + 1..b] == b1[a + 1..b];
        if buffer[a + 1..b] == [47] + tag {
          PassLast(s, b1, pos, start, tag);
          buffer[a] := NUL;
          return Some(b + 1);
        }
        PassOne(s, b1, pos, start, tag);
        start := b + 1;
      }
    }

    /** NewTag, NewSymbol and the four stores: a tag over the list from q, or the list given back. */
    method Fill(kind: Kind, name: Option<seq<Byte>>, q: int, ghost kids: seq<Node>,
                ghost others: multiset<int>, ghost otherNames: multiset<seq<Byte>>)
      returns (a: int, ghost ns: seq<Node>)
      requires Valid() && Holds(tags, q, kids)
      requires used == Sum(Addresses(kids), others) && names == Sum(Names(kids), otherNames)
      modifies this
      ensures Valid() && (old(starved) ==> starved) && Kept(old(tags), tags, others)
      ensures used == Sum(Addresses(ns), others) && names == Sum(Names(ns), otherNames)
      ensures if a == NIL then starved && ns == [] else ns == [Node(a, kind, name, kids)] && Holds(tags, a, ns)
    {
      hide Conserved, Counted, FreeList, Holds, Addresses, Names, Kept, Sum, One;
      ghost var t0 := tags;
      a := NewTag();
      KeptPart(t0, tags, q, kids, others);
      KeptUnder(t0, tags, Addresses(kids), others);
      ghost var t1 := tags;
      if a == NIL {
        ns := [];
        XMLFreeTag(q, kids, others, otherNames);
        KeptAcross(t0, t1, tags, others);
        EmptyParts(others, otherNames);
        return;
      }
      NameTag(name, Sum(Names(kids), otherNames));
      ghost var r := Record(Some(kind), name, q, NIL);
      ns := [Node(a, kind, name, kids)];
      NewIsApart(|tags|, a, Addresses(kids), others, free);
      FilledIn(tags, tags[a := r], a, kind, name, q, kids);
      KeptBut(t0, tags, others, a, r);
      FreeListBut(tags, tagsFree, free, a, r);
      FillParts(ns[0], others, otherNames);
      tags := tags[a := Record(Some(kind), name, q, NIL)];
    }

    method NameTag(name: Option<seq<Byte>>, ghost before: multiset<seq<Byte>>)
      requires Valid() && names == before
      modifies `symbols, `names
      ensures Valid() && names == Sum(before, One(name))
    {
      hide Conserved, Counted, FreeList;
      if name.Some? {
        NewSymbol(name.value);
      }
      assert names == Sum(before, One(name));
    }

    /** ParseTagKey: the tag that follows becomes the key's value. */
    method ParseTagKey(buffer: array<Byte>, pos: nat, ghost s: seq<Byte>)
      returns (end: int, tag: int, ghost ns: seq<Node>)
      requires Valid() && pos <= buffer.Length == |s| && Unread(s, buffer[..], pos) && Ends(s, pos)
      requires ParseKey(s, pos) != Undefined
      modifies this, buffer
      ensures Valid() && (old(starved) ==> starved) && Kept(old(tags), tags, old(used))
      ensures ReadTo(s, old(buffer[..]), buffer[..], pos, end)
      ensures used == Sum(Addresses(ns), old(used)) && names == Sum(Names(ns), old(names))
      ensures if end == -1 then ns == [] && (ParseKey(s, pos).Fail? || starved)
              else Outcome(ParseKey(s, pos), end, tag, NIL, ns, tags)
      decreases buffer.Length - pos, 2
    {
      hide Conserved, Counted, FreeList, Holds, Addresses, Names, Kept, Sum, One;
      hide Ends, Unread, Cut, EndOfData, DataAt, CString, Parse, Find, NextTag;
      ghost var t0, b0, others, otherNames := tags, buffer[..], used, names;
      end, tag, ns := -1, NIL, [];
      SameKept(tags, others);
      EmptyParts(others, otherNames);
      var length := FixDataMatchingTag(buffer, pos, KEY, s);
      if length.None? {
        return;
      }
      ghost var b1 := buffer[..];
      var sub;
      ghost var kids;
      end, sub, kids := XMLParseNextTag(buffer, length.value, NIL, s);
      CutBoth(s, b0, b1, buffer[..], pos, length.value, end);
      if end == -1 {
        return;
      }
      ValueHeld(Parse(s, length.value), end, sub, kids, tags);
      ghost var t1 := tags;
      LaterCut(b1, buffer[..], pos, length.value);
      tag, ns := Fill(Key, Some(CString(buffer[..], pos)), sub, kids, others, otherNames);
      KeptAcross(t0, t1, tags, others);
      if tag == NIL {
        end := -1;
      }
    }

    /** ParseTagString, ParseTagInteger, ParseTagData and ParseTagDate. */
    method ParseTagData(buffer: array<Byte>, pos: nat, name: seq<Byte>, kind: Kind, ghost s: seq<Byte>)
      returns (end: int, tag: int, ghost ns: seq<Node>)
      requires Valid() && pos <= buffer.Length == |s| && Unread(s, buffer[..], pos) && Ends(s, pos)
      modifies this, buffer
      ensures Valid() && (old(starved) ==> starved) && Kept(old(tags), tags, old(used))
      ensures ReadTo(s, old(buffer[..]), buffer[..], pos, end)
      ensures used == Sum(Addresses(ns), old(used)) && names == Sum(Names(ns), old(names))
      ensures if end == -1 then ns == [] && (ParseData(s, pos, name, kind).Fail? || starved)
              else Outcome(ParseData(s, pos, name, kind), end, tag, NIL, ns, tags)
    {
      hide Conserved, Counted, FreeList, Holds, Addresses, Names, Kept, Sum, One;
      hide Ends, Unread, Cut, EndOfData, DataAt, CString, Find, NextTag;
      ghost var others, otherNames := used, names;
      end, tag, ns := -1, NIL, [];
      SameKept(tags, others);
      EmptyParts(others, otherNames);
      var length := FixDataMatchingTag(buffer, pos, name, s);
      if length.None? {
        return;
      }
      var text := if kind == String then Some(CString(buffer[..], pos)) else None;
      EmptyHeld(tags);
      tag, ns := Fill(kind, text, NIL, [], others, otherNames);
      if tag != NIL {
        end := length.value;
      }
    }

    /** ParseTagList of a tag that is not empty: each tag read is linked in front. */
    method ParseTagList(buffer: array<Byte>, start: nat, kind: Kind, ghost s: seq<Byte>)
      returns (end: int, tag: int, ghost ns: seq<Node>)
      requires Valid() && start <= buffer.Length == |s| && Unread(s, buffer[..], start) && Ends(s, start)
      requires ParseList(s, start, kind) != Undefined
      modifies this, buffer
      ensures Valid() && (old(starved) ==> starved) && Kept(old(tags), tags, old(used))
      ensures ReadTo(s, old(buffer[..]), buffer[..], start, end)
      ensures used == Sum(Addresses(ns), old(used)) && names == Sum(Names(ns), old(names))
      ensures if end == -1 then ns == [] && (ParseList(s, start, kind).Fail? || starved)
              else Outcome(ParseList(s, start, kind), end, tag, NIL, ns, tags)
      decreases buffer.Length - start, 2
    {
      hide Conserved, Counted, FreeList, Holds, Addresses, Names, Kept, Sum, One, Reverse, TagsOf;
      hide Ends, Unread, Cut, Parse, ParseItems;
      ghost var t0, b0, others, otherNames := tags, buffer[..], used, names;
      var pos, tagList := start, NIL;
      var length, tmpTag;
      ghost var list, docs: seq<Tag>, one := [], [], [];
      EmptyHeld(tags);
      EmptyParts(others, otherNames);
      SameKept(tags, others);
      StartList(s, b0, start);
      while true
        invariant Valid() && (old(starved) ==> starved) && Kept(t0, tags, others)
        invariant start <= pos <= buffer.Length && ReadTo(s, b0, buffer[..], start, pos)
        invariant Holds(tags, tagList, list) && TagsOf(list) == Reverse(docs) && Continues(s, start, pos, docs)
        invariant used == Sum(Addresses(list), others) && names == Sum(Names(list), otherNames)
        decreases buffer.Length - pos
      {
        ghost var b1, t1 := buffer[..], tags;
        ItemDefined(s, start, pos, docs, kind);
        length, tmpTag, one := XMLParseNextTag(buffer, pos, NIL, s);
        ReadFurther(s, b0, b1, buffer[..], start, pos, length);
        KeptPart(t1, tags, tagList, list, others);
        KeptUnder(t1, tags, Addresses(list), others);
        KeptAcross(t0, t1, tags, others);
        if length == -1 {
          EmptyParts(Sum(Addresses(list), others), Sum(Names(list), otherNames));
          break;
        }
        if tmpTag == NIL {
          LastItem(s, start, pos, docs, kind);
          EmptyParts(Sum(Addresses(list), others), Sum(Names(list), otherNames));
          pos := length;
          break;
        }
        NextItem(s, start, pos, docs, TagOf(one[0]));
        InFront(one[0], list, docs);
        LinkApart(tags, tmpTag, one, Addresses(list), others, free);
        LinkedInFront(tags, tags[tmpTag := tags[tmpTag].(next := tagList)], tmpTag, one[0], tagList, list);
        KeptBut(t0, tags, others, tmpTag, tags[tmpTag].(next := tagList));
        FreeListBut(tags, tagsFree, free, tmpTag, tags[tmpTag].(next := tagList));
        LinkedParts(one[0], list, others, otherNames);
        tags := tags[tmpTag := tags[tmpTag].(next := tagList)];
        list, docs := [one[0]] + list, docs + [TagOf(one[0])];
        tagList := tmpTag;
        pos := length;
      }
      ghost var t3 := tags;
      if length == -1 {
        XMLFreeTag(tagList, list, others, otherNames);
        KeptAcross(t0, t3, tags, others);
        end, tag, ns := -1, NIL, [];
      } else {
        tag, ns := Fill(kind, None, tagList, list, others, otherNames);
        KeptAcross(t0, t3, tags, others);
        end := if tag == NIL then -1 else pos;
      }
    }

    /** XMLParseNextTag: for a plist tag, *tag keeps its stale value. */
    method XMLParseNextTag(buffer: array<Byte>, start: nat, stale: int, ghost s: seq<Byte>)
      returns (end: int, tag: int, ghost ns: seq<Node>)
      requires Valid() && start <= buffer.Length == |s| && Unread(s, buffer[..], start) && Ends(s, start)
      requires Parse(s, start) != Undefined
      modifies this, buffer
      ensures Valid() && (old(starved) ==> starved) && Kept(old(tags), tags, old(used))
      ensures ReadTo(s, old(buffer[..]), buffer[..], start, end)
      ensures used == Sum(Addresses(ns), old(used)) && names == Sum(Names(ns), old(names))
      ensures if end == -1 then ns == [] && (Parse(s, start).Fail? || starved)
              else Outcome(Parse(s, start), end, tag, stale, ns, tags)
      decreases buffer.Length - start, 1
    {
      hide Conserved, Counted, FreeList, Holds, Addresses, Names, Kept, Sum, One, Outcome;
      hide Ends, Unread, Cut, Find, NextTag, ParseData, ParseKey, ParseList;
      ghost var b0 := buffer[..];
      end, tag, ns := -1, stale, [];
      SameKept(tags, used);
      EmptyParts(used, names);
      SameReadTo(s, b0, start);
      var t := GetNextTag(buffer, start, s);
      if t.None? {
        return;
      }
      var name := buffer[t.value.0 + 1..t.value.1];
      var pos := t.value.1 + 1;
      CutTag(s, b0, start, t.value);
      assert name == NameAt(s, t.value) by {
        assert name == b0[t.value.0 + 1..t.value.1];
      }
      ghost var b1, p := buffer[..], Parse(s, start);
      NoTag(pos, stale, tags);
      if PLIST <= name {
        end := pos;
        SameReadTo(s, b1, pos);
      } else if name == DICT {
        end, tag, ns := ParseTagList(buffer, pos, Dict, s);
      } else if name == DICT_EMPTY {
        end, tag, ns := ParseTagEmpty(Dict, pos, s, b1);
      } else if name == KEY {
        end, tag, ns := ParseTagKey(buffer, pos, s);
      } else if name == STRING {
        end, tag, ns := ParseTagData(buffer, pos, STRING, String, s);
      } else if name == INTEGER {
        end, tag, ns := ParseTagData(buffer, pos, INTEGER, Integer, s);
      } else if name == DATA {
        end, tag, ns := ParseTagData(buffer, pos, DATA, Data, s);
      } else if name == DATE {
        end, tag, ns := ParseTagData(buffer, pos, DATE, Date, s);
      } else if name == FALSE {
        end, tag, ns := ParseTagEmpty(False, pos, s, b1);
      } else if name == TRUE {
        end, tag, ns := ParseTagEmpty(True, pos, s, b1);
      } else if name == ARRAY {
        end, tag, ns := ParseTagList(buffer, pos, Array, s);
      } else if name == ARRAY_EMPTY {
        end, tag, ns := ParseTagEmpty(Array, pos, s, b1);
      } else {
        end, tag := pos, NIL;
        SameReadTo(s, b1, pos);
      }
      CutBoth(s, b0, b1, buffer[..], start, pos, end);
      if end != -1 {
        AnyStale(p, end, tag, stale, ns, tags);
      }
    }

    /** ParseTagBoolean, and ParseTagList of an empty tag. */
    method ParseTagEmpty(kind: Kind, pos: nat, ghost s: seq<Byte>, ghost b: seq<Byte>)
      returns (end: int, tag: int, ghost ns: seq<Node>)
      requires Valid() && pos <= |s| && Unread(s, b, pos) && Ends(s, pos)
      modifies this
      ensures Valid() && (old(starved) ==> starved) && Kept(old(tags), tags, old(used))
      ensures ReadTo(s, b, b, pos, end)
      ensures used == Sum(Addresses(ns), old(used)) && names == Sum(Names(ns), old(names))
      ensures if end == -1 then ns == [] && starved
              else Outcome(Got(Some(Tag(kind, None, [])), pos), end, tag, NIL, ns, tags)
    {
      hide Conserved, Counted, FreeList, Holds, Addresses, Names, Kept, Sum, One, Ends;
      EmptyHeld(tags);
      EmptyParts(used, names);
      SameReadTo(s, b, pos);
      tag, ns := Fill(kind, None, NIL, [], used, names);
      end := if tag == NIL then -1 else pos;
    }
  }

  lemma NoEnd(s: seq<Byte>, pos: nat, tag: seq<Byte>)
    requires pos <= |s| && NextTag(s, pos).None?
    ensures EndOfData(s, pos, tag).None?
  {
  }

  lemma SameKept(t: seq<Record>, who: multiset<int>)
    ensures Kept(t, t, who)
  {
  }

  lemma SameRecord(t0: seq<Record>, t1: seq<Record>, p: int, others: multiset<int>)
    requires Kept(t0, t1, Sum(multiset{p}, others)) && 0 <= p < |t0|
    ensures p < |t1| && t1[p] == t0[p]
  {
    assert p in Sum(multiset{p}, others);
  }
}
