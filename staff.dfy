/**
 * The staff-name detector: the first roster name, in roster order, that occurs
 * anywhere in a text.
 */
module Staff {
  import opened Wrappers
  import opened Text

  /** `TEACHER_NAMES`, in its order, one constant per line of the source list;
      정인국 is listed twice, as in the source. */
  const Roster: seq<string> := Line1 + Line2 + Line3 + Line4 + Line5 + Line6 + Line7
  const Line1: seq<string> := ["임지혜", "이윤주", "조태정", "성정혜", "경선식", "박노준"]
  const Line2: seq<string> := ["박수연", "고종훈", "라영환", "최영재", "전한길"]
  const Line3: seq<string> := ["박찬혁", "황철곤", "이상헌", "신용한", "전효진", "정인국", "양승우"]
  const Line4: seq<string> := ["이상현", "조여은", "서호성", "장병열", "신명", "박상민", "고비환"]
  const Line5: seq<string> := ["김광훈", "김형준", "오정화", "남정선", "백광훈", "허서유", "오제현"]
  const Line6: seq<string> := ["이종하", "최희준", "김창훈", "이진오", "진승현", "송아름", "이재훈"]
  const Line7: seq<string> := ["송아영", "김종환", "심승아", "곽동진", "정인국", "임재희"]

  /** The first of `names`, in list order, that is a substring of `text`;
      None when none is. */
  function FirstMention(text: string, names: seq<string>): (r: Option<string>)
    ensures r.Some? ==>
              exists i :: 0 <= i < |names| && names[i] == r.value && Contains(text, names[i])
                          && forall j :: 0 <= j < i ==> !Contains(text, names[j])
    ensures r.None? <==> forall i :: 0 <= i < |names| ==> !Contains(text, names[i])
  {
    if names == [] then None
    else if Contains(text, names[0]) then Some(names[0])
    else
      assert forall i :: 1 <= i < |names| ==> names[1..][i - 1] == names[i];
      FirstMention(text, names[1..])
  }

  /** `detect_teacher` applied to a content cell (a missing cell reads as "nan"). */
  function StaffOf(content: Option<string>): Option<string> {
    FirstMention(CellText(content), Roster)
  }

  /** A detected name is a roster name that the text contains. */
  lemma StaffInRoster(content: Option<string>)
    ensures StaffOf(content).Some? ==>
              StaffOf(content).value in Roster && Contains(CellText(content), StaffOf(content).value)
  {
    if StaffOf(content).Some? {
      var i :| 0 <= i < |Roster| && Roster[i] == StaffOf(content).value && Contains(CellText(content), Roster[i])
                && forall j :: 0 <= j < i ==> !Contains(CellText(content), Roster[j]);
    }
  }

  /** `detect_teacher`: scan the roster in order and return at the first name found. */
  method DetectTeacher(text: Option<string>) returns (name: Option<string>)
    ensures name == StaffOf(text)
  {
    var s := CellText(text);
    var i := 0;
    while i < |Roster|
      invariant 0 <= i <= |Roster|
      invariant FirstMention(s, Roster) == FirstMention(s, Roster[i..])
    {
      assert Roster[i..][1..] == Roster[i + 1..];
      if Contains(s, Roster[i]) {
        return Some(Roster[i]);
      }
      i := i + 1;
    }
    return None;
  }

  /** A text none of whose characters starts `p` does not contain `p`. */
  lemma {:induction false} NotContainsFirstChar(s: string, p: string)
    requires p != [] && forall i :: 0 <= i < |s| ==> s[i] != p[0]
    ensures !Contains(s, p)
  {
    if s != [] {
      assert s[0] != p[0];
      assert !(p <= s);
      assert forall i :: 0 <= i < |s[1..]| ==> s[1..][i] == s[i + 1];
      NotContainsFirstChar(s[1..], p);
    }
  }

  /** A non-empty name that starts with a Hangul syllable. */
  predicate StartsHangul(name: string) {
    |name| > 0 && '가' <= name[0] <= '힣'
  }

  /** Every roster name is non-empty and starts with a Hangul syllable. */
  lemma RosterStartsHangul()
    ensures forall name :: name in Roster ==> StartsHangul(name)
  {
    assert forall name :: name in Line1 ==> StartsHangul(name);
    assert forall name :: name in Line2 ==> StartsHangul(name);
    assert forall name :: name in Line3 ==> StartsHangul(name);
    assert forall name :: name in Line4 ==> StartsHangul(name);
    assert forall name :: name in Line5 ==> StartsHangul(name);
    assert forall name :: name in Line6 ==> StartsHangul(name);
    assert forall name :: name in Line7 ==> StartsHangul(name);
  }

  /** A text without Hangul mentions no staff. */
  lemma {:induction false} NoHangulNoStaff(s: string)
    requires forall k :: 0 <= k < |s| ==> !('가' <= s[k] <= '힣')
    ensures StaffOf(Some(s)) == None
  {
    RosterStartsHangul();
    forall i | 0 <= i < |Roster| ensures !Contains(s, Roster[i]) {
      assert StartsHangul(Roster[i]);
      NotContainsFirstChar(s, Roster[i]);
    }
  }

  /** A missing content cell mentions no staff: its text "nan" holds no Hangul. */
  lemma MissingContentHasNoStaff(content: Option<string>)
    requires content.None?
    ensures StaffOf(content) == None
  {
    NoHangulNoStaff(CellText(content));
  }

  /** Priority follows the roster, not the text: the earliest roster entry that
      occurs is returned wherever in the text it stands, even when later
      entries occur before it. */
  lemma RosterOrderWins(s: string, i: nat, p: nat)
    requires i < |Roster| && OccursAt(s, Roster[i], p)
    requires forall k :: 0 <= k < i ==> !Contains(s, Roster[k])
    ensures StaffOf(Some(s)) == Some(Roster[i])
  {
    ContainsAt(s, Roster[i], p);
    var r := StaffOf(Some(s));
    var i' :| 0 <= i' < |Roster| && Roster[i'] == r.value && Contains(s, Roster[i'])
              && forall j :: 0 <= j < i' ==> !Contains(s, Roster[j]);
    assert i' == i;
  }
}
