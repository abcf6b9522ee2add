/**
  Product image links (`getValidImageUrl`): a placeholder when there is no
  link, and Google Drive "view" share links rewritten to direct-download form.
*/
module Images {
  import opened Strings

  const Placeholder: string := "https://via.placeholder.com/300x200?text=No+Image"
  const DriveHost: string := "drive.google.com"
  const ShareSuffix: string := "/view?usp=sharing"
  const DirectSuffix: string := "/uc?export=view"

  /** `getValidImageUrl(url)`. */
  function GetValidImageUrl(url: string): (r: string)
    ensures url == "" ==> r == Placeholder
    ensures url != "" && !Contains(url, DriveHost) ==> r == url
    ensures r != ""
  {
    if url == "" then Placeholder
    else if Contains(url, DriveHost) then ReplaceFirst(url, ShareSuffix, DirectSuffix)
    else url
  }

  /** A Drive link without the share suffix is left as it is. */
  lemma DriveLinkWithoutShareSuffix(url: string)
    requires url != "" && !Contains(url, ShareSuffix)
    ensures GetValidImageUrl(url) == url
  {
  }

  /** The first '?' of a share link is the one of its suffix. */
  lemma NoQuestionMarkBefore(prefix: string)
    requires '?' !in prefix
    ensures forall k :: 0 <= k < |prefix| + 5 ==> (prefix + ShareSuffix)[k] != '?'
  {
    var url := prefix + ShareSuffix;
    forall k | 0 <= k < |prefix| + 5
      ensures url[k] != '?'
    {
      if k < |prefix| {
        assert url[k] == prefix[k];
      } else {
        assert url[k] == ShareSuffix[k - |prefix|];
      }
    }
  }

  /**
    A Drive share link `prefix + "/view?usp=sharing"` becomes
    `prefix + "/uc?export=view"` (the prefix holding the host and no '?').
  */
  lemma DriveShareLink(prefix: string)
    requires Contains(prefix, DriveHost) && '?' !in prefix
    ensures GetValidImageUrl(prefix + ShareSuffix) == prefix + DirectSuffix
  {
    var url := prefix + ShareSuffix;
    var j :| 0 <= j && OccursAt(prefix, DriveHost, j);
    assert url[j..j + |DriveHost|] == prefix[j..j + |DriveHost|];
    assert OccursAt(url, DriveHost, j);
    assert OccursAt(url, ShareSuffix, |prefix|);
    var i := IndexOf(url, ShareSuffix).value;
    OccursAtChar(url, ShareSuffix, i, 5);
    NoQuestionMarkBefore(prefix);
    assert i == |prefix|;
    assert url[..|prefix|] == prefix;
  }
}
