/**
The distributed stats cache (statscache/redis/cache.go): one flat hash of
decimal counters per user, incremented in place by the event handlers.
*/
module StatsHash {
  import opened Messages
  import opened Decimals
  import opened Stats

  type Hash = map<string, string>

  const TOTAL := "total"
  const UNREAD := "unread"
  const DRAFT := "draft"
  const FOLDER_PREFIX := "folder:"

  function FolderField(f: string, kind: string): string {
    FOLDER_PREFIX + f + ":" + kind
  }

  function FolderTotal(f: string): string {
    FolderField(f, TOTAL)
  }

  function FolderUnread(f: string): string {
    FolderField(f, UNREAD)
  }

  /** Three parts, the first being "folder". */
  predicate IsFolderField(k: string) {
    FOLDER_PREFIX <= k && |Split(k)| == 3
  }

  function FolderOf(k: string): string
    requires IsFolderField(k)
  {
    Split(k)[1]
  }

  lemma FieldParts(f: string, kind: string)
    requires ':' !in f && ':' !in kind
    ensures IsFolderField(FolderField(f, kind)) && Split(FolderField(f, kind)) == ["folder", f, kind]
  {
    hide Split;
    var k := FolderField(f, kind);
    SplitFirst("folder", f + ":" + kind);
    SplitFirst(f, kind);
    SplitWhole(kind);
    assert k == "folder" + ":" + (f + ":" + kind);
    assert k[..7] == FOLDER_PREFIX;
  }

  lemma FieldOfParts(k: string)
    requires IsFolderField(k)
    ensures k == FolderField(Split(k)[1], Split(k)[2])
  {
    JoinSplit(k);
    var p := Split(k);
    SplitFirst("folder", k[7..]);
    assert k == "folder" + ":" + k[7..];
    assert p[1..][1..] == [p[2]];
    assert Join(p[1..]) == p[1] + ":" + p[2];
    assert k == "folder" + ":" + (p[1] + ":" + p[2]);
  }

  /** The names of the fields. */
  lemma FieldNames(f: string)
    ensures {TOTAL, UNREAD, DRAFT} == {"total", "unread", "draft"} && TOTAL == "total" && UNREAD == "unread"
    ensures FolderTotal(f) == "folder:" + f + ":total" && FolderUnread(f) == "folder:" + f + ":unread"
  {
  }

  /** Field names of different counters differ. */
  lemma FieldsDiffer(f: string, g: string)
    ensures FolderTotal(f) != FolderUnread(g)
    ensures FolderTotal(f) == FolderTotal(g) ==> f == g
    ensures FolderUnread(f) == FolderUnread(g) ==> f == g
    ensures FolderTotal(f) !in {TOTAL, UNREAD, DRAFT} && FolderUnread(f) !in {TOTAL, UNREAD, DRAFT}
  {
    var t, u := FolderTotal(f), FolderUnread(g);
    assert t[|t| - 1] == 'l' && u[|u| - 1] == 'd';
    assert FolderTotal(f)[7..|FolderTotal(f)| - 6] == f && FolderTotal(g)[7..|FolderTotal(g)| - 6] == g;
    assert FolderUnread(f)[7..|FolderUnread(f)| - 7] == f && FolderUnread(g)[7..|FolderUnread(g)| - 7] == g;
    assert t[6] == ':' && FolderUnread(f)[6] == ':';
  }

  // ---------------------------------------------------------------------
  // Encoding
  // ---------------------------------------------------------------------

  ghost predicate IsCounterField(k: string, folders: set<string>) {
    k in {TOTAL, UNREAD, DRAFT} || exists f :: f in folders && (k == FolderTotal(f) || k == FolderUnread(f))
  }

  /** The hash holds the printed counters and nothing else. */
  ghost predicate Encodes(h: Hash, s: MailboxStats) {
    && (forall k :: k in h <==> IsCounterField(k, s.folders.Keys))
    && h[TOTAL] == Print(s.total) && h[UNREAD] == Print(s.unread) && h[DRAFT] == Print(s.drafts)
    && forall f :: f in s.folders ==>
         h[FolderTotal(f)] == Print(s.folders[f].total) && h[FolderUnread(f)] == Print(s.folders[f].unread)
  }

  /** The fields of one more folder. */
  lemma EncodeFolder(h: Hash, s: MailboxStats, f: string, c: Counts)
    requires Encodes(h, s) && f !in s.folders
    ensures Encodes(h[FolderTotal(f) := Print(c.total)][FolderUnread(f) := Print(c.unread)], s.SetFolder(f, c))
  {
    hide FolderField, Print;
    var h' := h[FolderTotal(f) := Print(c.total)][FolderUnread(f) := Print(c.unread)];
    forall g | g in s.folders
      ensures h'[FolderTotal(g)] == h[FolderTotal(g)] && h'[FolderUnread(g)] == h[FolderUnread(g)]
    {
      FieldsDiffer(f, g);
      FieldsDiffer(g, f);
    }
    FieldsDiffer(f, f);
    forall k ensures k in h' <==> IsCounterField(k, s.folders.Keys + {f}) {
      assert k in h <==> IsCounterField(k, s.folders.Keys);
    }
    assert s.SetFolder(f, c).folders.Keys == s.folders.Keys + {f};
  }

  lemma EncodeCounters(h: Hash, s: MailboxStats)
    requires h == map[TOTAL := Print(s.total), UNREAD := Print(s.unread), DRAFT := Print(s.drafts)]
    ensures Encodes(h, s.(folders := map[]))
  {
  }

  method EncodeStats(s: MailboxStats) returns (h: Hash)
    ensures Encodes(h, s)
  {
    hide Encodes, FolderField, Print;
    h := map[TOTAL := Print(s.total), UNREAD := Print(s.unread), DRAFT := Print(s.drafts)];
    EncodeCounters(h, s);
    var todo := s.folders.Keys;
    ghost var done := s.(folders := map[]);
    while todo != {}
      invariant todo <= s.folders.Keys && done == s.(folders := s.folders - todo)
      invariant Encodes(h, done)
    {
      var f :| f in todo;
      var c := s.folders[f];
      EncodeFolder(h, done, f, c);
      h := h[FolderTotal(f) := Print(c.total)];
      h := h[FolderUnread(f) := Print(c.unread)];
      todo := todo - {f};
      done := done.SetFolder(f, c);
    }
    assert done.folders == s.folders;
  }

  // ---------------------------------------------------------------------
  // Decoding
  // ---------------------------------------------------------------------

  predicate Parses(h: Hash, k: string) {
    k in h ==> ParseInt(h[k]).Some?
  }

  /** The counter in a field, zero when it is missing. */
  function Num(h: Hash, k: string): int
    requires Parses(h, k)
  {
    if k in h then ParseInt(h[k]).value else 0
  }

  predicate WellFormed(h: Hash) {
    && Parses(h, TOTAL) && Parses(h, UNREAD) && Parses(h, DRAFT)
    && forall k :: k in h && IsFolderField(k) ==> ParseInt(h[k]).Some?
  }

  function FolderIds(h: Hash): set<string> {
    set k | k in h && IsFolderField(k) :: FolderOf(k)
  }

  /** The folders named by three-part fields, each with its two counters. */
  ghost predicate DecodesFolders(h: Hash, folders: map<string, Counts>) {
    && folders.Keys == FolderIds(h)
    && forall f :: f in folders ==>
         && ':' !in f
         && Parses(h, FolderTotal(f)) && Parses(h, FolderUnread(f))
         && folders[f] == Counts(Num(h, FolderTotal(f)), Num(h, FolderUnread(f)))
  }

  ghost predicate Decodes(h: Hash, s: MailboxStats) {
    && WellFormed(h)
    && s.total == Num(h, TOTAL) && s.unread == Num(h, UNREAD) && s.drafts == Num(h, DRAFT)
    && DecodesFolders(h, s.folders)
  }

  /** What one more three-part field does to the folders decoded so far. */
  function AddField(folders: map<string, Counts>, k: string, n: int): map<string, Counts>
    requires IsFolderField(k)
  {
    var f := FolderOf(k);
    var c := if f in folders then folders[f] else Counts(0, 0);
    var kind := Split(k)[2];
    folders[f := if kind == TOTAL then c.(total := n) else if kind == UNREAD then c.(unread := n) else c]
  }

  /** The folders of a hash with one more field. */
  lemma FolderIdsMore(h: Hash, k: string, v: string)
    requires k !in h
    ensures FolderIds(h[k := v]) == if IsFolderField(k) then FolderIds(h) + {FolderOf(k)} else FolderIds(h)
  {
    hide Split;
    var h' := h[k := v];
    forall g | g in FolderIds(h) ensures g in FolderIds(h') {
      var k0 :| k0 in h && IsFolderField(k0) && FolderOf(k0) == g;
      assert k0 in h';
    }
    if IsFolderField(k) {
      assert k in h';
    }
  }

  lemma AddFieldDecodes(h: Hash, folders: map<string, Counts>, k: string, v: string)
    requires DecodesFolders(h, folders) && k !in h && IsFolderField(k) && ParseInt(v).Some?
    ensures DecodesFolders(h[k := v], AddField(folders, k, ParseInt(v).value))
  {
    hide FolderField, Split, ParseInt, FolderIds;
    var h', folders', f := h[k := v], AddField(folders, k, ParseInt(v).value), FolderOf(k);
    FolderIdsMore(h, k, v);
    FieldOfParts(k);
    if f !in folders {
      NotYet(h, f);
    }
    forall g | g in folders'
      ensures ':' !in g && Parses(h', FolderTotal(g)) && Parses(h', FolderUnread(g))
      ensures folders'[g] == Counts(Num(h', FolderTotal(g)), Num(h', FolderUnread(g)))
    {
      FieldsDiffer(f, g);
      FieldsDiffer(g, f);
      FieldParts(g, TOTAL);
      FieldParts(g, UNREAD);
    }
  }

  lemma NotYet(h: Hash, f: string)
    requires ':' !in f && f !in FolderIds(h)
    ensures FolderTotal(f) !in h && FolderUnread(f) !in h
  {
    FieldParts(f, TOTAL);
    FieldParts(f, UNREAD);
    assert FolderOf(FolderTotal(f)) == f && FolderOf(FolderUnread(f)) == f;
  }

  lemma SkipFieldDecodes(h: Hash, folders: map<string, Counts>, k: string, v: string)
    requires DecodesFolders(h, folders) && k !in h && !IsFolderField(k)
    ensures DecodesFolders(h[k := v], folders)
  {
    hide FolderField, Split, ParseInt, FolderIds;
    var h' := h[k := v];
    FolderIdsMore(h, k, v);
    forall g | g in folders
      ensures Parses(h', FolderTotal(g)) && Parses(h', FolderUnread(g))
      ensures Num(h', FolderTotal(g)) == Num(h, FolderTotal(g)) && Num(h', FolderUnread(g)) == Num(h, FolderUnread(g))
    {
      FieldParts(g, TOTAL);
      FieldParts(g, UNREAD);
    }
  }

  method ParseField(h: Hash, k: string) returns (r: Option<int>)
    ensures r == if Parses(h, k) then Some(Num(h, k)) else None
  {
    if k in h {
      r := ParseInt(h[k]);
    } else {
      r := Some(0);
    }
  }

  /** Fails exactly when some counter cannot be parsed. */
  method DecodeStats(h: Hash) returns (r: Option<MailboxStats>)
    ensures r.None? <==> !WellFormed(h)
    ensures r.Some? ==> Decodes(h, r.value)
  {
    hide FolderField, ParseInt, Split;
    var folders: map<string, Counts> := map[];
    var todo := h.Keys;
    ghost var seen: Hash := map[];
    while todo != {}
      invariant todo <= h.Keys && seen == h - todo
      invariant DecodesFolders(seen, folders)
      invariant forall k :: k in seen && IsFolderField(k) ==> ParseInt(h[k]).Some?
    {
      var k :| k in todo;
      todo := todo - {k};
      if IsFolderField(k) {
        var n := ParseInt(h[k]);
        if n.None? {
          return None;
        }
        AddFieldDecodes(seen, folders, k, h[k]);
        var f, kind := Split(k)[1], Split(k)[2];
        var c := if f in folders then folders[f] else Counts(0, 0);
        if kind == TOTAL {
          c := c.(total := n.value);
        } else if kind == UNREAD {
          c := c.(unread := n.value);
        }
        folders := folders[f := c];
      } else {
        SkipFieldDecodes(seen, folders, k, h[k]);
      }
      seen := seen[k := h[k]];
    }
    assert seen == h;
    var total := ParseField(h, TOTAL);
    var unread := ParseField(h, UNREAD);
    var drafts := ParseField(h, DRAFT);
    if total.None? || unread.None? || drafts.None? {
      return None;
    }
    return Some(MailboxStats(total.value, unread.value, drafts.value, folders));
  }

  // ---------------------------------------------------------------------
  // Round trip
  // ---------------------------------------------------------------------

  ghost predicate Fits(s: MailboxStats) {
    && IsInt64(s.total) && IsInt64(s.unread) && IsInt64(s.drafts)
    && forall f :: f in s.folders ==> IsInt64(s.folders[f].total) && IsInt64(s.folders[f].unread)
  }

  /** A hash decodes to at most one value. */
  lemma DecodesOnce(h: Hash, s: MailboxStats, s': MailboxStats)
    requires Decodes(h, s) && Decodes(h, s')
    ensures s == s'
  {
    assert s.folders == s'.folders;
  }

  lemma EncodedParses(h: Hash, s: MailboxStats, k: string)
    requires Encodes(h, s) && Fits(s) && k in h
    ensures ParseInt(h[k]).Some?
  {
    assert IsCounterField(k, s.folders.Keys);
    ParsePrint(s.total);
    ParsePrint(s.unread);
    ParsePrint(s.drafts);
    if k !in {TOTAL, UNREAD, DRAFT} {
      var f :| f in s.folders && (k == FolderTotal(f) || k == FolderUnread(f));
      ParsePrint(s.folders[f].total);
      ParsePrint(s.folders[f].unread);
    }
  }

  lemma EncodedCounters(h: Hash, s: MailboxStats)
    requires Encodes(h, s) && Fits(s)
    ensures WellFormed(h)
    ensures s.total == Num(h, TOTAL) && s.unread == Num(h, UNREAD) && s.drafts == Num(h, DRAFT)
  {
    hide FolderField, Split, ParseInt, Print;
    forall k | k in h ensures ParseInt(h[k]).Some? {
      EncodedParses(h, s, k);
    }
    ParsePrint(s.total);
    ParsePrint(s.unread);
    ParsePrint(s.drafts);
  }

  lemma EncodedFolder(h: Hash, s: MailboxStats, f: string)
    requires Encodes(h, s) && Fits(s) && f in s.folders
    ensures Parses(h, FolderTotal(f)) && Parses(h, FolderUnread(f))
    ensures s.folders[f] == Counts(Num(h, FolderTotal(f)), Num(h, FolderUnread(f)))
  {
    hide FolderField, ParseInt, Print;
    ParsePrint(s.folders[f].total);
    ParsePrint(s.folders[f].unread);
    assert IsCounterField(FolderTotal(f), s.folders.Keys) && IsCounterField(FolderUnread(f), s.folders.Keys);
  }

  /** Encoded stats are decoded to themselves exactly when no folder ID contains a colon. */
  lemma DecodeEncodeIff(h: Hash, s: MailboxStats)
    requires Encodes(h, s) && Fits(s)
    ensures WellFormed(h)
    ensures Decodes(h, s) <==> forall f :: f in s.folders ==> ':' !in f
  {
    hide Encodes, Fits, FolderField, FolderIds, WellFormed, Num, Parses;
    EncodedCounters(h, s);
    if forall f :: f in s.folders ==> ':' !in f {
      EncodedFolders(h, s);
      forall f | f in s.folders
        ensures Parses(h, FolderTotal(f)) && Parses(h, FolderUnread(f))
        ensures s.folders[f] == Counts(Num(h, FolderTotal(f)), Num(h, FolderUnread(f)))
      {
        EncodedFolder(h, s, f);
      }
    }
  }

  /** A three-part counter field names one of the folders. */
  lemma CounterFieldFolder(k: string, folders: set<string>)
    requires IsCounterField(k, folders) && IsFolderField(k) && forall f :: f in folders ==> ':' !in f
    ensures FolderOf(k) in folders
  {
    hide Split, FolderField;
    assert k[0] == 'f';
    assert k != TOTAL && k != UNREAD && k != DRAFT;
    var f :| f in folders && (k == FolderTotal(f) || k == FolderUnread(f));
    FieldParts(f, TOTAL);
    FieldParts(f, UNREAD);
  }

  lemma EncodedFolders(h: Hash, s: MailboxStats)
    requires Encodes(h, s) && forall f :: f in s.folders ==> ':' !in f
    ensures FolderIds(h) == s.folders.Keys
  {
    hide FolderField, Split, Print;
    forall f | f in s.folders ensures f in FolderIds(h) {
      FieldParts(f, TOTAL);
      assert IsCounterField(FolderTotal(f), s.folders.Keys);
      assert FolderOf(FolderTotal(f)) == f;
    }
    hide IsCounterField, IsFolderField;
    forall g | g in FolderIds(h) ensures g in s.folders {
      var k :| k in h && IsFolderField(k) && FolderOf(k) == g;
      CounterFieldFolder(k, s.folders.Keys);
    }
  }
}
