/** The table of instruction sets: a map from upper-cased names, iterated in name
    order by inst_exec. */
module Registry {
  import opened Words
  import opened Memory
  import opened Hart
  import opened Vm
  import Csr

  datatype Entry = Entry(name: string, ext: Ext)

  // Lexicographic order of names.
  predicate Less(a: string, b: string) {
    b != "" && (a == "" || a[0] < b[0] || (a[0] == b[0] && Less(a[1..], b[1..])))
  }

  lemma {:induction false} LessTotal(a: string, b: string)
    ensures a == b || Less(a, b) || Less(b, a)
    ensures !(Less(a, b) && Less(b, a))
  {
    if a != "" && b != "" {
      LessTotal(a[1..], b[1..]);
      if a[0] == b[0] && a[1..] == b[1..] {
        assert a == [a[0]] + a[1..] == b;
      }
    }
  }

  lemma {:induction false} LessTransitive(a: string, b: string, c: string)
    requires Less(a, b) && Less(b, c)
    ensures Less(a, c)
  {
    if a != "" && a[0] == b[0] == c[0] {
      LessTransitive(a[1..], b[1..], c[1..]);
    }
  }

  // The names first differ at k, where a ends or has the smaller character.
  predicate PrecedesAt(a: string, b: string, k: nat) {
    k <= |a| && k < |b| && a[..k] == b[..k] && (k == |a| || a[k] < b[k])
  }

  lemma SameHead(a: string, b: string, k: nat)
    requires PrecedesAt(a, b, k)
    ensures k > 0 ==> a != "" && b != "" && a[0] == b[0]
  {
    if k > 0 {
      assert a[..k][0] == a[0] && b[..k][0] == b[0];
    }
  }

  lemma {:induction false} LessIsLexicographic(a: string, b: string)
    ensures Less(a, b) <==> exists k: nat :: PrecedesAt(a, b, k)
  {
    if a == "" || b == "" || a[0] != b[0] {
      assert Less(a, b) ==> PrecedesAt(a, b, 0);
      if k: nat :| PrecedesAt(a, b, k) {
        SameHead(a, b, k);
      }
    } else {
      LessIsLexicographic(a[1..], b[1..]);
      if Less(a, b) {
        var k: nat :| PrecedesAt(a[1..], b[1..], k);
        assert a[..k + 1] == [a[0]] + a[1..][..k] && b[..k + 1] == [b[0]] + b[1..][..k];
        assert PrecedesAt(a, b, k + 1);
      }
      if k: nat :| PrecedesAt(a, b, k) {
        assert k > 0;
        assert a[1..][..k - 1] == a[..k][1..] && b[1..][..k - 1] == b[..k][1..];
        assert PrecedesAt(a[1..], b[1..], k - 1);
      }
    }
  }

  // toupper on each character
  function Upper(s: string): string {
    if s == "" then ""
    else [if 'a' <= s[0] <= 'z' then s[0] - 'a' + 'A' else s[0]] + Upper(s[1..])
  }

  // The same letter, whatever its case, or the same character.
  predicate SameLetter(c: char, d: char) {
    || c == d
    || ('a' <= c <= 'z' && d as int == c as int - 32)
    || ('a' <= d <= 'z' && c as int == d as int - 32)
  }

  predicate SameName(a: string, b: string) {
    |a| == |b| && forall k | 0 <= k < |a| :: SameLetter(a[k], b[k])
  }

  lemma {:induction false} UpperChars(s: string)
    ensures |Upper(s)| == |s|
    ensures forall k | 0 <= k < |s| :: SameLetter(Upper(s)[k], s[k]) && !('a' <= Upper(s)[k] <= 'z')
  {
    if s != "" {
      UpperChars(s[1..]);
    }
  }

  // Two names have the same key exactly when they differ in the case of letters only.
  lemma UpperIffSameName(a: string, b: string)
    ensures Upper(a) == Upper(b) <==> SameName(a, b)
  {
    UpperChars(a);
    UpperChars(b);
  }

  // The keys are upper-cased names.
  ghost predicate Keyed(es: seq<Entry>) {
    forall e | e in es :: Upper(e.name) == e.name
  }

  // A name is refused exactly when it is there in one case or another.
  lemma NamedIffSameName(es: seq<Entry>, name: string)
    requires Keyed(es)
    ensures Named(es, Upper(name)) <==> exists e | e in es :: SameName(e.name, name)
  {
    hide Upper, SameName;
    forall e | e in es
      ensures e.name == Upper(name) <==> SameName(e.name, name)
    {
      UpperIffSameName(e.name, name);
    }
  }

  lemma InsertKeepsKeys(es: seq<Entry>, name: string, ext: Ext)
    requires Keyed(es)
    ensures Keyed(Insert(es, Entry(Upper(name), ext)))
  {
    UpperChars(name);
    UpperIffSameName(Upper(name), name);
    InsertAdds(es, Entry(Upper(name), ext));
  }

  // Once a name is in the table, every other case of it is taken.
  lemma NameIsTaken(es: seq<Entry>, name: string, ext: Ext, name': string)
    requires SameName(name, name')
    ensures Named(Insert(es, Entry(Upper(name), ext)), Upper(name'))
  {
    UpperIffSameName(name, name');
    InsertAdds(es, Entry(Upper(name), ext));
    assert Entry(Upper(name), ext) in Insert(es, Entry(Upper(name), ext));
  }

  ghost predicate Sorted(es: seq<Entry>) {
    forall i, j | 0 <= i < j < |es| :: Less(es[i].name, es[j].name)
  }

  predicate Named(es: seq<Entry>, name: string) {
    exists e | e in es :: e.name == name
  }

  function Insert(es: seq<Entry>, e: Entry): seq<Entry> {
    if es == [] || Less(e.name, es[0].name) then [e] + es else [es[0]] + Insert(es[1..], e)
  }

  lemma {:induction false} InsertAdds(es: seq<Entry>, e: Entry)
    ensures multiset(Insert(es, e)) == multiset(es) + multiset{e}
    ensures forall f :: f in Insert(es, e) <==> f == e || f in es
  {
    if es != [] && !Less(e.name, es[0].name) {
      InsertAdds(es[1..], e);
      assert es == [es[0]] + es[1..];
    }
  }

  lemma {:induction false} InsertKeepsOrder(es: seq<Entry>, e: Entry)
    requires Sorted(es) && !Named(es, e.name)
    ensures Sorted(Insert(es, e))
    ensures multiset(Insert(es, e)) == multiset(es) + multiset{e}
  {
    InsertAdds(es, e);
    hide Less;
    if es == [] {
    } else if Less(e.name, es[0].name) {
      forall j | 0 < j < |es|
        ensures Less(e.name, es[j].name)
      {
        LessTransitive(e.name, es[0].name, es[j].name);
      }
    } else {
      var rest := es[1..];
      assert es[0] in es;
      LessTotal(e.name, es[0].name);
      assert !Named(rest, e.name);
      InsertKeepsOrder(rest, e);
      InsertAdds(rest, e);
      forall f | f in Insert(rest, e)
        ensures Less(es[0].name, f.name)
      {
        if f != e {
          var k :| 0 <= k < |rest| && rest[k] == f;
          assert es[k + 1] == f;
        }
      }
    }
  }

  function Exts(es: seq<Entry>): (xs: seq<Ext>)
    ensures |xs| == |es| && forall i | 0 <= i < |es| :: xs[i] == es[i].ext
  {
    if es == [] then [] else [es[0].ext] + Exts(es[1..])
  }

  // What registering a set does to the CSRs: the base set marks misa, the privileged
  // set installs its registers, Zicsr does nothing.
  function Registered(ext: Ext, csrs: map<CsrAddr, Word>): map<CsrAddr, Word> {
    match ext
    case BaseI => Csr.MarkBase(csrs)
    case Zicsr => csrs
    case Privileged(_) => Csr.Installed(csrs)
  }

  // The CSRs after a sequence of registrations that were let in.
  function AllRegistered(exts: seq<Ext>, csrs: map<CsrAddr, Word>): map<CsrAddr, Word> {
    if exts == [] then csrs
    else Registered(exts[|exts| - 1], AllRegistered(exts[..|exts| - 1], csrs))
  }

  // Registration i is of a base set, after the last of a privileged set.
  ghost predicate MarksLast(exts: seq<Ext>, i: nat) {
    && i < |exts| && exts[i].BaseI?
    && (exists j :: 0 <= j < i && exts[j].Privileged?)
    && forall j | i < j < |exts| :: !exts[j].Privileged?
  }

  // On a machine without CSRs, misa exists exactly when a privileged set has been
  // registered, and its base bit is up exactly when a base set has been since.
  lemma {:induction false} MisaMarkedIff(exts: seq<Ext>)
    ensures var csrs := AllRegistered(exts, map[]);
      && (Csr.MISA in csrs <==> exists j :: 0 <= j < |exts| && exts[j].Privileged?)
      && (Csr.MISA in csrs && Bit(csrs[Csr.MISA], 8) <==> exists i: nat :: MarksLast(exts, i))
  {
    hide Csr.Listed, BitsOf, Bit;
    if exts != [] {
      var n := |exts| - 1;
      var init, last := exts[..n], exts[n];
      MisaMarkedIff(init);
      MarksLastEarlier(exts);
      RegisteredMisa(last, AllRegistered(init, map[]));
      if last.BaseI? && exists j :: 0 <= j < |init| && init[j].Privileged? {
        var j :| 0 <= j < |init| && init[j].Privileged?;
        assert exts[j].Privileged?;
        assert MarksLast(exts, n);
      }
      assert forall j | 0 <= j < n :: init[j] == exts[j];
    }
  }

  lemma MarksLastEarlier(exts: seq<Ext>)
    requires exts != []
    ensures var n := |exts| - 1;
      forall i: nat | i < n :: MarksLast(exts, i) <==> MarksLast(exts[..n], i) && !exts[n].Privileged?
  {
    var n := |exts| - 1;
    var init := exts[..n];
    forall i: nat | i < n
      ensures MarksLast(exts, i) <==> MarksLast(init, i) && !exts[n].Privileged?
    {
      assert forall j | 0 <= j < n :: init[j] == exts[j];
      if MarksLast(exts, i) {
        var j :| 0 <= j < i && exts[j].Privileged?;
        assert init[j].Privileged?;
      }
      if MarksLast(init, i) {
        var j :| 0 <= j < i && init[j].Privileged?;
        assert exts[j].Privileged?;
      }
    }
  }

  // What one registration does to misa.
  lemma RegisteredMisa(ext: Ext, csrs: map<CsrAddr, Word>)
    ensures var after := Registered(ext, csrs);
      && (Csr.MISA in after <==> Csr.MISA in csrs || ext.Privileged?)
      && (ext.Privileged? ==> !Bit(after[Csr.MISA], 8))
      && (ext.BaseI? && Csr.MISA in csrs ==> Bit(after[Csr.MISA], 8))
      && (ext.Zicsr? ==> after == csrs)
  {
    Csr.MisaIsMachineSetupOnly();
    Csr.Bit30Alone();
    hide BitsOf, Bit;
    if Csr.MISA in csrs {
      Csr.MarkingSetsBit(csrs[Csr.MISA]);
    }
  }

  ghost predicate Privileges(exts: seq<Ext>) {
    exists j :: 0 <= j < |exts| && exts[j].Privileged?
  }

  ghost predicate Marked(exts: seq<Ext>) {
    exists i: nat :: MarksLast(exts, i)
  }

  // All registers after any sequence of registrations on a machine without CSRs: none
  // without a privileged set; with one the listed ones, all zero but misa.
  lemma {:induction false} RegistersAfter(exts: seq<Ext>)
    ensures var csrs := AllRegistered(exts, map[]);
      && (forall c :: c in csrs <==> Privileges(exts) && Csr.Listed(c))
      && forall c | c in csrs :: csrs[c] == if c != 0x301 then 0 else if Marked(exts) then 0x4000_0100 else 0x4000_0000
  {
    hide Csr.Listed, Csr.MarkBase, BitsOf, Bit;
    if exts != [] {
      var n := |exts| - 1;
      var init, last := exts[..n], exts[n];
      RegistersAfter(init);
      PrivilegesEarlier(exts);
      MarkedEarlier(exts);
      MisaMarkedIff(init);
      Csr.MarkingAddsBase(AllRegistered(init, map[]));
      hide AllRegistered, Privileges, Marked, MarksLast;
    }
  }

  lemma MarkedEarlier(exts: seq<Ext>)
    requires exts != []
    ensures var init, last := exts[..|exts| - 1], exts[|exts| - 1];
      Marked(exts) <==> if last.BaseI? then Privileges(init) else Marked(init) && !last.Privileged?
  {
    var n := |exts| - 1;
    var init := exts[..n];
    MarksLastEarlier(exts);
    assert forall j | 0 <= j < n :: init[j] == exts[j];
    if exts[n].BaseI? && Privileges(init) {
      var j :| 0 <= j < n && init[j].Privileged?;
      assert exts[j].Privileged?;
      assert MarksLast(exts, n);
    }
    if i: nat :| MarksLast(exts, i) {
      assert i < n ==> MarksLast(init, i);
      var j :| 0 <= j < i && exts[j].Privileged?;
      assert init[j].Privileged?;
    }
    if i: nat :| MarksLast(init, i) {
      assert i < n && (MarksLast(exts, i) <==> !exts[n].Privileged?);
    }
  }

  lemma PrivilegesEarlier(exts: seq<Ext>)
    requires exts != []
    ensures Privileges(exts) <==> Privileges(exts[..|exts| - 1]) || exts[|exts| - 1].Privileged?
  {
    var n := |exts| - 1;
    assert forall j | 0 <= j < n :: exts[..n][j] == exts[j];
    if Privileges(exts[..n]) {
      var j :| 0 <= j < n && exts[..n][j].Privileged?;
      assert exts[j].Privileged?;
    }
  }

  // With the base set registered as "I" and the CSR set under its own name, "ZICSR",
  // no CSR instruction is ever executed.
  lemma CsrNeverReached(es: seq<Entry>, w: Word, s: State)
    requires s.Valid() && Sorted(es) && Csr.IsValid(w)
    requires Entry("I", BaseI) in es
    requires forall e | e in es && e.ext == Zicsr :: e.name == "ZICSR"
    ensures InstExec(Exts(es), w, s) == Result(EUNDEF, s)
  {
    hide InstExec;
    var xs := Exts(es);
    BaseBeforeZicsr();
    var b :| 0 <= b < |es| && es[b] == Entry("I", BaseI);
    CsrReachedIffBeforeBase(xs, w, s);
    forall i | 0 <= i < |xs| && xs[i] == Zicsr
      ensures BaseI in xs[..i]
    {
      assert es[i] in es && es[i].name == "ZICSR";
      assert b < i;
      assert xs[..i][b] == BaseI;
    }
  }

  lemma BaseBeforeZicsr()
    ensures Less("I", "ZICSR") && !Less("ZICSR", "I")
  {
  }
}
