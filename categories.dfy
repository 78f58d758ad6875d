/**
 * The category normaliser: a fixed table from fine-grained "<major> - <minor>"
 * categories to four representative categories.
 */
module Categories {
  import opened Wrappers
  import opened Text

  const Delivery: string := "넥스트패스/강좌/교재 신청, 배송"
  const Payment: string := "결제/취소/환불"
  const VideoMobile: string := "동영상, 모바일 기기 관련"
  const SiteEvent: string := "홈페이지/이벤트 관련"

  /** The four representative categories the table maps onto. */
  const Labels: set<string> := {Delivery, Payment, VideoMobile, SiteEvent}

  /** `CATEGORY_MAP`, all 24 entries. */
  const CategoryMap: map<string, string> := map[
    "강좌/상품 신청, 배송 - 강좌신청" := Delivery,
    "강좌/상품 신청, 배송 - 상품신청" := Delivery,
    "강좌/상품 신청, 배송 - 반송" := Delivery,
    "강좌/상품 신청, 배송 - 배송" := Delivery,
    "강좌/상품 신청, 배송 - e-교재신청" := Delivery,
    "결제, 취소, 환불 - 결제" := Payment,
    "결제, 취소, 환불 - 취소/환불" := Payment,
    "동영상 수강-PC - 동영상 오류" := VideoMobile,
    "동영상 수강-PC - PC 기기" := VideoMobile,
    "모바일 기기 - 모바일 기기" := VideoMobile,
    "사이트 이용 - 부정사용" := SiteEvent,
    "사이트 이용 - 사이트 오류" := SiteEvent,
    "사이트 이용 - 수강기간" := SiteEvent,
    "사이트 이용 - 업로드" := SiteEvent,
    "사이트 이용 - 이벤트" := SiteEvent,
    "사이트 이용 - 학력예측 풀서비스" := SiteEvent,
    "사이트 이용 - 패스 환급" := SiteEvent,
    "사이트 이용 - 패스 연장" := SiteEvent,
    "회원정보 - 일반회원" := SiteEvent,
    "공무원 수험정보 - 공무원 수험정보" := SiteEvent,
    "기타 문의 - 건의사항" := SiteEvent,
    "기타 문의 - 넥스트선생님" := SiteEvent,
    "기타 문의 - 넥스트스터디 학원" := SiteEvent,
    "기타 문의 - 기타" := SiteEvent
  ]

  /** `map_category`: the table entry for the stripped text of the cell, or the
      cell itself, unstripped, when the table has no such key. */
  function MapCategory(value: Option<string>): Option<string> {
    var key := Strip(CellText(value));
    if key in CategoryMap then Some(CategoryMap[key]) else value
  }

  /** Every table value is one of the representative labels. */
  lemma ValuesAreLabels()
    ensures forall k :: k in CategoryMap ==> CategoryMap[k] in Labels
  {
  }

  /** No label is itself a key of the table, and each is already stripped. */
  lemma LabelsAreFinal()
    ensures forall l :: l in Labels ==> l !in CategoryMap && Strip(l) == l
  {
    forall l | l in Labels
      ensures l !in CategoryMap && Strip(l) == l
    {
      LabelFinal(l);
    }
  }

  lemma LabelFinal(l: string)
    requires l in Labels
    ensures l !in CategoryMap && Strip(l) == l
  {
    LabelNotKey(l);
    LabelStripped(l);
  }

  lemma LabelNotKey(l: string)
    requires l in Labels
    ensures l !in CategoryMap
  {
  }

  lemma LabelStripped(l: string)
    requires l in Labels
    ensures Strip(l) == l
  {
    assert l != [] && !IsSpace(l[0]) && !IsSpace(l[|l| - 1]);
    StripFixed(l);
  }

  /** A key found after stripping gives its table entry; any other present
      value comes back unchanged (not stripped), and a missing cell stays missing. */
  lemma MapCategoryLookup(value: Option<string>)
    ensures value.Some? && Strip(value.value) in CategoryMap ==>
              MapCategory(value) == Some(CategoryMap[Strip(value.value)])
    ensures value.Some? && Strip(value.value) !in CategoryMap ==> MapCategory(value) == value
    ensures value.None? ==> MapCategory(value) == None
  {
    if value.None? {
      MissingStaysMissing();
    }
  }

  /** Every key of the table starts with a Hangul syllable. */
  lemma KeysStartHangul()
    ensures forall k :: k in CategoryMap ==> |k| > 0 && '가' <= k[0] <= '힣'
  {
  }

  /** A missing cell reads as "nan", which is no key, so it comes back missing. */
  lemma MissingStaysMissing()
    ensures MapCategory(None) == None
  {
    var t := CellText(None);
    assert t == "nan";
    assert !IsSpace(t[0]) && !IsSpace(t[|t| - 1]);
    StripFixed(t);
    KeysStartHangul();
    assert t[0] == 'n';
  }

  /** The result is missing exactly when the input is, and is either one of
      the four labels or the input itself. */
  lemma MapCategoryRange(value: Option<string>)
    ensures MapCategory(value).None? <==> value.None?
    ensures MapCategory(value) == value || MapCategory(value).value in Labels
  {
    ValuesAreLabels();
    LabelsAreFinal();
    MapCategoryLookup(value);
  }

  /** Normalising a normalised category changes nothing. */
  lemma MapCategoryIdempotent(value: Option<string>)
    ensures MapCategory(MapCategory(value)) == MapCategory(value)
  {
    ValuesAreLabels();
    LabelsAreFinal();
    MapCategoryLookup(value);
    MapCategoryLookup(MapCategory(value));
  }
}
