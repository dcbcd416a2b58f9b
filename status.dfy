/** The two status families a document carries and how a stored value is read:
    the permission (approval) status and the status of each of the four review
    stages ("4f": planning, procurement, finance, budget). A stored value is
    trimmed and looked up by exact match among the accepted Thai and English
    spellings; anything else falls back to the family's default. */
module Status {
  import opened Seqs
  import opened Text

  datatype Family = Permission | FourF

  /** The canonical keys of the permission family. */
  datatype PermissionKey = Pending | Approved | Rejected

  /** The canonical keys of the stage family. */
  datatype StageKey = NotStarted | Passed | NotRequired | Failed

  /** What the views render for a status: its text, an icon (stages only) and a CSS class. */
  datatype StatusInfo =
    | PermissionInfo(text: string, className: string)
    | StageInfo(text: string, icon: string, className: string)

  function PermissionDescriptor(k: PermissionKey): StatusInfo
  {
    match k
    case Pending => PermissionInfo("กำลังดำเนินการ", "yellow")
    case Approved => PermissionInfo("อนุมัติแล้ว", "green")
    case Rejected => PermissionInfo("ไม่อนุมัติ", "red")
  }

  function StageDescriptor(k: StageKey): StatusInfo
  {
    match k
    case NotStarted => StageInfo("ยังไม่เริ่ม", "⌛", "notStarted")
    case Passed => StageInfo("ผ่านการตรวจสอบ", "✅", "approved")
    case NotRequired => StageInfo("ข้ามขั้นตอนนี", "↪️", "notRequired")
    case Failed => StageInfo("ไม่ผ่าน(แก้ไขจะระบุในหมายเหตุ)", "❌", "rejected")
  }

  /** The accepted stored spellings of a permission, in declaration order. */
  const PermissionInputMap: seq<(string, PermissionKey)> := [
    ("กำลังดำเนินการ", Pending),
    ("อนุมัติ", Approved),
    ("อนุมัติแล้ว", Approved),
    ("ไม่อนุมัติ", Rejected),
    ("In Progress", Pending),
    ("Pending", Pending),
    ("Approved", Approved),
    ("Rejected", Rejected),
    ("Not Approved", Rejected)
  ]

  /** The accepted stored spellings of a stage status, in declaration order. */
  const StageInputMap: seq<(string, StageKey)> := [
    ("ยังไม่เริ่ม", NotStarted),
    ("ผ่านการตรวจสอบ", Passed),
    ("ข้ามขั้นตอนนี", NotRequired),
    ("ไม่ผ่าน(แก้ไขจะระบุในหมายเหตุ)", Failed),
    ("Not Started", NotStarted),
    ("Passed", Passed),
    ("Skip", NotRequired),
    ("Failed", Failed)
  ]

  /** The texts the forms offer, one per canonical key. */
  const PermissionDisplay: seq<string> := ["กำลังดำเนินการ", "อนุมัติแล้ว", "ไม่อนุมัติ"]
  const StageDisplay: seq<string> := ["ยังไม่เริ่ม", "ผ่านการตรวจสอบ", "ข้ามขั้นตอนนี", "ไม่ผ่าน(แก้ไขจะระบุในหมายเหตุ)"]

  /** `Object.keys(table).find(k => k === key)`: the position of the first entry
      whose key is exactly `key`, or the table's length when there is none. */
  function FindKey<K>(table: seq<(string, K)>, key: string): (i: nat)
    ensures i <= |table|
    ensures i < |table| ==> table[i].0 == key
    ensures forall j :: 0 <= j < i ==> table[j].0 != key
  {
    if table == [] || table[0].0 == key then 0 else 1 + FindKey(table[1..], key)
  }

  /** The canonical key the table lists for `key`, if any. */
  function Lookup<K>(table: seq<(string, K)>, key: string): Option<K>
  {
    var i := FindKey(table, key);
    if i < |table| then Some(table[i].1) else None
  }

  /** getStatusInfo: the descriptor of a stored status value. */
  function GetStatusInfo(family: Family, value: string): StatusInfo
  {
    var v := Trim(value);
    match family
    case Permission =>
      (match Lookup(PermissionInputMap, v)
       case Some(k) => PermissionDescriptor(k)
       case None => PermissionDescriptor(Pending))
    case FourF =>
      (match Lookup(StageInputMap, v)
       case Some(k) => StageDescriptor(k)
       case None => StageDescriptor(NotStarted))
  }

  /** The descriptors a family can produce. */
  predicate IsDescriptorOf(family: Family, info: StatusInfo)
  {
    match family
    case Permission => exists k :: info == PermissionDescriptor(k)
    case FourF => exists k :: info == StageDescriptor(k)
  }

  /** Totality: every value, including the empty one, resolves to one of the
      family's fixed descriptors. */
  lemma GetStatusInfoTotal(family: Family, value: string)
    ensures IsDescriptorOf(family, GetStatusInfo(family, value))
  {
    var v := Trim(value);
    match family
    case Permission =>
      var k := match Lookup(PermissionInputMap, v) case Some(k) => k case None => Pending;
      assert GetStatusInfo(family, value) == PermissionDescriptor(k);
    case FourF =>
      var k := match Lookup(StageInputMap, v) case Some(k) => k case None => NotStarted;
      assert GetStatusInfo(family, value) == StageDescriptor(k);
  }

  /** Whether the trimmed value is one of the family's accepted spellings. */
  predicate IsKnownSpelling(family: Family, v: string)
  {
    match family
    case Permission => exists i :: 0 <= i < |PermissionInputMap| && PermissionInputMap[i].0 == v
    case FourF => exists i :: 0 <= i < |StageInputMap| && StageInputMap[i].0 == v
  }

  /** A value that is no accepted spelling once trimmed gets the family's default. */
  lemma UnknownFallsBack(family: Family, value: string)
    requires !IsKnownSpelling(family, Trim(value))
    ensures family == Permission ==> GetStatusInfo(family, value) == PermissionDescriptor(Pending)
    ensures family == FourF ==> GetStatusInfo(family, value) == StageDescriptor(NotStarted)
  {
    if family == Permission {
      LookupUnlisted(PermissionInputMap, Trim(value));
    } else {
      LookupUnlisted(StageInputMap, Trim(value));
    }
  }

  /** A key no entry has is looked up as None. */
  lemma LookupUnlisted<K>(table: seq<(string, K)>, key: string)
    requires forall i :: 0 <= i < |table| ==> table[i].0 != key
    ensures Lookup(table, key) == None
  {
  }

  /** No spelling is listed twice: the first entry with an entry's key is that entry. */
  lemma PermissionSpellingsDistinct(i: nat)
    requires i < |PermissionInputMap|
    ensures FindKey(PermissionInputMap, PermissionInputMap[i].0) == i
  {
    var t := PermissionInputMap;
    forall j | 0 <= j < i
      ensures t[j].0 != t[i].0
    {
      assert |t[j].0| != |t[i].0| || t[j].0[0] != t[i].0[0];
    }
    FirstWithKey(t, i);
  }

  lemma PermissionKeysTrimmed()
    ensures forall i :: 0 <= i < |PermissionInputMap| ==> IsTrimmed(PermissionInputMap[i].0)
  {
  }

  /** No spelling is listed twice: the first entry with an entry's key is that entry. */
  lemma StageSpellingsDistinct(i: nat)
    requires i < |StageInputMap|
    ensures FindKey(StageInputMap, StageInputMap[i].0) == i
  {
    var t := StageInputMap;
    forall j | 0 <= j < i
      ensures t[j].0 != t[i].0
    {
      assert |t[j].0| != |t[i].0| || t[j].0[0] != t[i].0[0];
    }
    FirstWithKey(t, i);
  }

  /** An entry whose key no earlier entry has is the one FindKey finds. */
  lemma FirstWithKey<K>(table: seq<(string, K)>, i: nat)
    requires i < |table|
    requires forall j :: 0 <= j < i ==> table[j].0 != table[i].0
    ensures FindKey(table, table[i].0) == i
  {
  }

  lemma StageKeysTrimmed()
    ensures forall i :: 0 <= i < |StageInputMap| ==> IsTrimmed(StageInputMap[i].0)
  {
  }

  /** Every accepted spelling, with any whitespace around it, resolves to the
      descriptor of the canonical key it is listed under. */
  lemma PermissionSpellingsResolve(i: nat, before: string, after: string)
    requires i < |PermissionInputMap|
    requires AllWhitespace(before) && AllWhitespace(after)
    ensures GetStatusInfo(Permission, before + PermissionInputMap[i].0 + after)
         == PermissionDescriptor(PermissionInputMap[i].1)
  {
    var key := PermissionInputMap[i].0;
    assert IsTrimmed(key) by {
      PermissionKeysTrimmed();
    }
    TrimPadded(before, key, after);
    PermissionSpellingsDistinct(i);
    assert Lookup(PermissionInputMap, key) == Some(PermissionInputMap[i].1);
  }

  lemma StageSpellingsResolve(i: nat, before: string, after: string)
    requires i < |StageInputMap|
    requires AllWhitespace(before) && AllWhitespace(after)
    ensures GetStatusInfo(FourF, before + StageInputMap[i].0 + after)
         == StageDescriptor(StageInputMap[i].1)
  {
    var key := StageInputMap[i].0;
    assert IsTrimmed(key) by {
      StageKeysTrimmed();
    }
    TrimPadded(before, key, after);
    StageSpellingsDistinct(i);
    assert Lookup(StageInputMap, key) == Some(StageInputMap[i].1);
  }

  /** Each display text is the text of the descriptor it resolves to. */
  lemma DisplayTextsResolveToThemselves()
    ensures forall i :: 0 <= i < |PermissionDisplay| ==> GetStatusInfo(Permission, PermissionDisplay[i]).text == PermissionDisplay[i]
    ensures forall i :: 0 <= i < |StageDisplay| ==> GetStatusInfo(FourF, StageDisplay[i]).text == StageDisplay[i]
  {
    forall i | 0 <= i < |PermissionDisplay|
      ensures GetStatusInfo(Permission, PermissionDisplay[i]).text == PermissionDisplay[i]
    {
      var j := [0, 2, 3][i];
      assert PermissionDisplay[i] == "" + PermissionInputMap[j].0 + "";
      PermissionSpellingsResolve(j, "", "");
    }
    forall i | 0 <= i < |StageDisplay|
      ensures GetStatusInfo(FourF, StageDisplay[i]).text == StageDisplay[i]
    {
      assert StageDisplay[i] == "" + StageInputMap[i].0 + "";
      StageSpellingsResolve(i, "", "");
    }
  }

  /** The text of each permission descriptor resolves to that descriptor. */
  lemma PermissionTextResolves(k: PermissionKey)
    ensures GetStatusInfo(Permission, PermissionDescriptor(k).text) == PermissionDescriptor(k)
  {
    var j := match k case Pending => 0 case Approved => 2 case Rejected => 3;
    assert PermissionDescriptor(k).text == "" + PermissionInputMap[j].0 + "";
    PermissionSpellingsResolve(j, "", "");
  }

  /** The text of each stage descriptor resolves to that descriptor. */
  lemma StageTextResolves(k: StageKey)
    ensures GetStatusInfo(FourF, StageDescriptor(k).text) == StageDescriptor(k)
  {
    var j := match k case NotStarted => 0 case Passed => 1 case NotRequired => 2 case Failed => 3;
    assert StageDescriptor(k).text == "" + StageInputMap[j].0 + "";
    StageSpellingsResolve(j, "", "");
  }

  /** The three permission descriptors have different texts, so a permission text
      names its canonical key. */
  lemma PermissionTextsDistinct(k1: PermissionKey, k2: PermissionKey)
    ensures PermissionDescriptor(k1).text == PermissionDescriptor(k2).text <==> k1 == k2
  {
    if k1 != k2 {
      assert |PermissionDescriptor(Approved).text| != |PermissionDescriptor(Rejected).text|;
      assert PermissionDescriptor(Pending).text[0] != PermissionDescriptor(Approved).text[0];
      assert PermissionDescriptor(Pending).text[0] != PermissionDescriptor(Rejected).text[0];
    }
  }

  /** Resolving the text of a resolved status gives the same status back. */
  lemma ResolveIsIdempotent(family: Family, value: string)
    ensures GetStatusInfo(family, GetStatusInfo(family, value).text) == GetStatusInfo(family, value)
  {
    GetStatusInfoTotal(family, value);
    var info := GetStatusInfo(family, value);
    match family
    case Permission =>
      var k :| info == PermissionDescriptor(k);
      PermissionTextResolves(k);
    case FourF =>
      var k :| info == StageDescriptor(k);
      StageTextResolves(k);
  }

  /** Surrounding whitespace is ignored: a padded spelling resolves like the bare one. */
  lemma PaddedApprovalExample()
    ensures GetStatusInfo(Permission, " อนุมัติ ") == PermissionDescriptor(Approved)
  {
    assert " อนุมัติ " == " " + PermissionInputMap[1].0 + " ";
    PermissionSpellingsResolve(1, " ", " ");
  }

  /** Letter case is not ignored: a lower-case English spelling falls back to pending. */
  lemma LowerCaseExample()
    ensures GetStatusInfo(Permission, "approved") == PermissionDescriptor(Pending)
  {
    TrimOfTrimmed("approved");
    LowerCaseUnlisted();
  }

  /** "approved" is not among the accepted permission spellings. */
  lemma LowerCaseUnlisted()
    ensures Lookup(PermissionInputMap, "approved") == None
  {
    var t := PermissionInputMap;
    assert |t[0].0| == 14;
    assert |t[1].0| == 7;
    assert |t[2].0| == 11;
    assert |t[3].0| == 10;
    assert |t[4].0| == 11;
    assert |t[5].0| == 7;
    assert |t[8].0| == 12;
    assert t[6].0[0] == 'A' && t[7].0[0] == 'R';
    LookupUnlisted(t, "approved");
  }

  /** A missing, empty or blank value gets the family's default. */
  lemma BlankValueFallsBack(family: Family, value: string)
    requires AllWhitespace(value)
    ensures family == Permission ==> GetStatusInfo(family, value) == PermissionDescriptor(Pending)
    ensures family == FourF ==> GetStatusInfo(family, value) == StageDescriptor(NotStarted)
  {
    AllWhitespaceTrimsToEmpty(value);
    NoEmptySpelling(family);
    UnknownFallsBack(family, value);
  }

  /** Every accepted spelling is non-empty. */
  lemma NoEmptySpelling(family: Family)
    ensures !IsKnownSpelling(family, "")
  {
    if family == Permission {
      forall i | 0 <= i < |PermissionInputMap|
        ensures PermissionInputMap[i].0 != ""
      {
        assert |PermissionInputMap[i].0| > 0;
      }
    } else {
      forall i | 0 <= i < |StageInputMap|
        ensures StageInputMap[i].0 != ""
      {
        assert |StageInputMap[i].0| > 0;
      }
    }
  }
}
