/**
 * The BibTeX key indexer (`ParserBibTeX`): a mirror of the buffer text kept up to
 * date by splicing, and a rescan after every edit that collects the keys of all
 * `@type{key` entries into the document's `bibitems` symbol set.
 *
 * The pattern `@(\w+)\{([\w\p{Pd}<>^:\/.]+)` is modelled as a scanner: `MatchAt`
 * is one match attempt at a position and `Scan` is `finditer`, which resumes after
 * the end of every match.
 */
module BibTeX {
  import opened Wrappers
  import opened Strings

  /** `\w` of the `regex` module, restricted to the Latin-1 range: ASCII letters and digits,
      the underscore, and the Latin-1 letters. */
  predicate IsWordChar(c: char)
  {
    ('a' <= c <= 'z') || ('A' <= c <= 'Z') || ('0' <= c <= '9') || c == '_' ||
    c == 'ª' || c == 'µ' || c == 'º' ||
    ('À' <= c <= 'Ö') || ('Ø' <= c <= 'ö') || ('ø' <= c <= 'ÿ')
  }

  /** `\p{Pd}`: the Unicode dash punctuation characters. */
  predicate IsDashPunct(c: char)
  {
    var n := c as int;
    n == 0x2D || n == 0x58A || n == 0x5BE || n == 0x1400 || n == 0x1806 ||
    (0x2010 <= n <= 0x2015) || n == 0x2E17 || n == 0x2E1A || n == 0x2E3A || n == 0x2E3B ||
    n == 0x2E40 || n == 0x2E5D || n == 0x301C || n == 0x3030 || n == 0x30A0 ||
    n == 0xFE31 || n == 0xFE32 || n == 0xFE58 || n == 0xFE63 || n == 0xFF0D || n == 0x10EAD
  }

  /** The key class `[\w\p{Pd}<>^:\/.]`. */
  predicate IsKeyChar(c: char)
  {
    IsWordChar(c) || IsDashPunct(c) || c == '<' || c == '>' || c == '^' || c == ':' || c == '/' || c == '.'
  }

  /** Length of the run of word characters starting at `i`. */
  function WordRun(s: string, i: nat): (n: nat)
    requires i <= |s|
    ensures i + n <= |s|
    ensures forall k :: i <= k < i + n ==> IsWordChar(s[k])
    ensures i + n == |s| || !IsWordChar(s[i + n])
    decreases |s| - i
  {
    if i < |s| && IsWordChar(s[i]) then 1 + WordRun(s, i + 1) else 0
  }

  /** Length of the run of key characters starting at `i`. */
  function KeyRun(s: string, i: nat): (n: nat)
    requires i <= |s|
    ensures i + n <= |s|
    ensures forall k :: i <= k < i + n ==> IsKeyChar(s[k])
    ensures i + n == |s| || !IsKeyChar(s[i + n])
    decreases |s| - i
  {
    if i < |s| && IsKeyChar(s[i]) then 1 + KeyRun(s, i + 1) else 0
  }

  /** A match: group 1 (the entry type), group 2 (the key) and the end offset of the match. */
  datatype BibMatch = BibMatch(entryType: string, key: string, end: nat)

  /** One attempt of the pattern at position `p`. Since neither `{` nor anything after it is
      a word character, backtracking into `\w+` can never succeed, so both runs are maximal. */
  function MatchAt(s: string, p: nat): (r: Option<BibMatch>)
    ensures r.Some? ==>
      var w := |r.value.entryType|;
      var j := p + 1 + w;
      && p < |s| && s[p] == '@' && w >= 1 && j < |s| && s[j] == '{'
      && r.value.entryType == s[p + 1..j]
      && (forall k :: p + 1 <= k < j ==> IsWordChar(s[k]))
      && r.value.key != [] && r.value.end == j + 1 + |r.value.key| <= |s|
      && r.value.key == s[j + 1..r.value.end]
      && (forall k :: 0 <= k < |r.value.key| ==> IsKeyChar(r.value.key[k]))
      && (r.value.end == |s| || !IsKeyChar(s[r.value.end]))
  {
    if p < |s| && s[p] == '@' then
      var w := WordRun(s, p + 1);
      var j := p + 1 + w;
      if w >= 1 && j < |s| && s[j] == '{' then
        var n := KeyRun(s, j + 1);
        if n >= 1 then Some(BibMatch(s[p + 1..j], s[j + 1..j + 1 + n], j + 1 + n)) else None
      else None
    else None
  }

  /** Every `@`, word characters, `{` and a key character in the text is a match. */
  lemma MatchAtComplete(s: string, p: nat, j: nat)
    requires p + 1 < j < |s| - 1
    requires s[p] == '@' && s[j] == '{' && IsKeyChar(s[j + 1])
    requires forall k :: p + 1 <= k < j ==> IsWordChar(s[k])
    ensures MatchAt(s, p).Some?
    ensures |MatchAt(s, p).value.entryType| == j - p - 1
  {
    var w := WordRun(s, p + 1);
    assert w == j - p - 1;
    assert KeyRun(s, j + 1) >= 1;
  }

  /** `finditer` from position `p`, collecting the stripped keys. */
  function Scan(s: string, p: nat): set<string>
    decreases |s| - p
  {
    if p >= |s| then {}
    else
      match MatchAt(s, p)
      case Some(m) => {Strip(m.key)} + Scan(s, m.end)
      case None => Scan(s, p + 1)
  }

  /** The `bibitems` set computed from a text. */
  function BibItems(s: string): set<string>
  {
    Scan(s, 0)
  }

  /** No key character is whitespace, so `.strip()` is the identity on keys. */
  lemma KeyIsStripped(m: BibMatch, s: string, p: nat)
    requires MatchAt(s, p) == Some(m)
    ensures Strip(m.key) == m.key
  {
    assert NoSpace(m.key) by {
      forall k | 0 <= k < |m.key|
        ensures !IsSpace(m.key[k])
      {
        assert IsKeyChar(m.key[k]);
      }
    }
    StripWithoutSpace(m.key);
  }

  /** Inside a match there is no `@`, so no match of `finditer` is skipped. */
  lemma NoAtInsideMatch(s: string, p: nat, q: nat)
    requires MatchAt(s, p).Some? && p < q < MatchAt(s, p).value.end
    ensures s[q] != '@'
  {
    var m := MatchAt(s, p).value;
    var j := p + 1 + |m.entryType|;
    if q < j {
      assert IsWordChar(s[q]);
    } else if q > j {
      assert m.key[q - j - 1] == s[q];
      assert IsKeyChar(m.key[q - j - 1]);
    }
  }

  /** `k` is a key found by a match starting at some position from `q` on. */
  predicate KeyFrom(s: string, q: nat, k: string)
  {
    exists p: nat :: q <= p < |s| && MatchAt(s, p).Some? && MatchAt(s, p).value.key == k
  }

  /** The keys `finditer` collects are exactly the keys of the matches at every position. */
  lemma {:induction false} ScanIff(s: string, q: nat)
    ensures forall k :: k in Scan(s, q) <==> KeyFrom(s, q, k)
    decreases |s| - q
  {
    if q < |s| {
      match MatchAt(s, q)
      case Some(m) =>
        ScanIff(s, m.end);
        KeyIsStripped(m, s, q);
        forall k | KeyFrom(s, q, k)
          ensures k in Scan(s, q)
        {
          var p: nat :| q <= p < |s| && MatchAt(s, p).Some? && MatchAt(s, p).value.key == k;
          if p == q {
          } else if p < m.end {
            NoAtInsideMatch(s, q, p);
          } else {
            assert KeyFrom(s, m.end, k);
          }
        }
        forall k | k in Scan(s, q)
          ensures KeyFrom(s, q, k)
        {
          if k == m.key {
            assert MatchAt(s, q).value.key == k;
          } else {
            assert k in Scan(s, m.end);
            var p: nat :| m.end <= p < |s| && MatchAt(s, p).Some? && MatchAt(s, p).value.key == k;
          }
        }
      case None =>
        ScanIff(s, q + 1);
        forall k | KeyFrom(s, q, k)
          ensures KeyFrom(s, q + 1, k)
        {
          var p: nat :| q <= p < |s| && MatchAt(s, p).Some? && MatchAt(s, p).value.key == k;
          assert p != q;
        }
    }
  }

  /** A key is in `bibitems` exactly when the pattern matches it at some position; every such key
      is non-empty, made of key characters, preceded by `@`, a word and `{`, and greedy. */
  lemma BibItemsAreKeys(s: string)
    ensures forall k :: k in BibItems(s) <==> KeyFrom(s, 0, k)
    ensures forall k :: k in BibItems(s) ==> k != [] && (forall i :: 0 <= i < |k| ==> IsKeyChar(k[i]))
  {
    ScanIff(s, 0);
  }

  /** A text without `@` has no BibTeX keys. */
  lemma NoAtNoKeys(s: string)
    requires '@' !in s
    ensures BibItems(s) == {}
  {
    ScanIff(s, 0);
    forall p: nat | p < |s|
      ensures MatchAt(s, p).None?
    {
      assert s[p] in s;
    }
  }

  /** `text[:start] + text[end:]`. */
  function Delete(t: string, start: nat, end: nat): string
  {
    Take(t, start) + Drop(t, end)
  }

  /** `text[:offset] + s + text[offset:]`. */
  function Insert(t: string, offset: nat, s: string): string
  {
    Take(t, offset) + s + Drop(t, offset)
  }

  /** Deleting a range shrinks the text by its length and keeps what is around it. */
  lemma DeleteShape(t: string, start: nat, end: nat)
    requires start <= end <= |t|
    ensures |Delete(t, start, end)| == |t| - (end - start)
    ensures Delete(t, start, end)[..start] == t[..start]
    ensures Delete(t, start, end)[start..] == t[end..]
  {
  }

  /** Inserting grows the text by the inserted length and puts the inserted text at the offset. */
  lemma InsertShape(t: string, offset: nat, s: string)
    requires offset <= |t|
    ensures |Insert(t, offset, s)| == |t| + |s|
    ensures Insert(t, offset, s)[..offset] == t[..offset]
    ensures Insert(t, offset, s)[offset..offset + |s|] == s
    ensures Insert(t, offset, s)[offset + |s|..] == t[offset..]
  {
    var r := Insert(t, offset, s);
    assert r == t[..offset] + s + t[offset..];
    assert r[..offset] == t[..offset];
    assert r[offset..offset + |s|] == s;
    assert r[offset + |s|..] == t[offset..];
  }

  /** Deleting what was just inserted restores the mirror. */
  lemma InsertThenDelete(t: string, offset: nat, s: string)
    requires offset <= |t|
    ensures Delete(Insert(t, offset, s), offset, offset + |s|) == t
  {
    InsertShape(t, offset, s);
    var r := Insert(t, offset, s);
    assert Delete(r, offset, offset + |s|) == r[..offset] + r[offset + |s|..];
    assert t == t[..offset] + t[offset..];
  }

  /** The document's symbol table, as far as the indexer touches it. */
  class Document {
    var symbols: map<string, set<string>>

    constructor (symbols: map<string, set<string>>)
      ensures this.symbols == symbols
    {
      this.symbols := symbols;
    }
  }

  class ParserBibTeX {
    const document: Document
    var text: string

    constructor (document: Document)
      ensures this.document == document && text == ""
    {
      this.document := document;
      text := "";
    }

    /** `on_text_deleted`: splice the range out of the mirror, then rescan. */
    method OnTextDeleted(startOffset: nat, endOffset: nat)
      modifies this, document
      ensures text == Delete(old(text), startOffset, endOffset)
      ensures document.symbols == old(document.symbols)["bibitems" := BibItems(text)]
    {
      text := Take(text, startOffset) + Drop(text, endOffset);
      ParseSymbols(text);
    }

    /** `on_text_inserted`: splice the text into the mirror, then rescan. */
    method OnTextInserted(offset: nat, s: string)
      modifies this, document
      ensures text == Insert(old(text), offset, s)
      ensures document.symbols == old(document.symbols)["bibitems" := BibItems(text)]
    {
      text := Take(text, offset) + s + Drop(text, offset);
      ParseSymbols(text);
    }

    /** `parse_symbols`: the collected set replaces `bibitems` wholesale and leaves every
        other symbol kind alone. */
    method ParseSymbols(t: string)
      modifies document
      ensures document.symbols == old(document.symbols)["bibitems" := BibItems(t)]
      ensures forall k :: k in old(document.symbols) && k != "bibitems" ==>
                k in document.symbols && document.symbols[k] == old(document.symbols)[k]
    {
      var bibitems := CollectKeys(t);
      document.symbols := document.symbols["bibitems" := bibitems];
    }
  }

  /** The `finditer` loop of `parse_symbols`: every match adds its stripped key and the search
      resumes at the end of the match. */
  method CollectKeys(t: string) returns (bibitems: set<string>)
    ensures bibitems == BibItems(t)
  {
    bibitems := {};
    var p := 0;
    while p < |t|
      invariant p <= |t|
      invariant bibitems + Scan(t, p) == Scan(t, 0)
      decreases |t| - p
    {
      var found := MatchAt(t, p);
      if found.Some? {
        var key, next := Strip(found.value.key), found.value.end;
        assert Scan(t, p) == {key} + Scan(t, next);
        bibitems, p := bibitems + {key}, next;
      } else {
        p := p + 1;
      }
    }
  }
}
