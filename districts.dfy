/**
 * District names and their one-hot columns. The district choices are read
 * back from the feature list: every feature whose name starts with the tag
 * `dist_` names a district, and the district is that name with the tag
 * removed by `str.replace`, which removes EVERY occurrence of the tag, not
 * only the leading one.
 */
module Districts {

  const DistPrefix: string := "dist_"

  /** The tag occurs in `s` starting at position `i`. */
  predicate TagAt(s: string, i: int) {
    0 <= i && i + |DistPrefix| <= |s| && s[i..i + |DistPrefix|] == DistPrefix
  }

  /** `s.startswith('dist_')`. */
  predicate IsDistColumn(s: string) {
    TagAt(s, 0)
  }

  /** `f"dist_{district}"`: the one-hot column of a district. */
  function DistColumn(district: string): (c: string)
    ensures IsDistColumn(c) && c[|DistPrefix|..] == district
  {
    DistPrefix + district
  }

  /** The tag occurs somewhere inside `s`. */
  predicate ContainsDist(s: string) {
    exists i :: 0 <= i <= |s| && TagAt(s, i)
  }

  /** An occurrence of the tag in a suffix is an occurrence in the whole. */
  lemma TagShift(s: string, i: nat, k: nat)
    requires k <= |s|
    ensures TagAt(s[k..], i) <==> TagAt(s, i + k)
  {
    if TagAt(s[k..], i) || TagAt(s, i + k) {
      assert s[k..][i..i + |DistPrefix|] == s[i + k..i + k + |DistPrefix|];
    }
  }

  /**
   * `s.replace('dist_', '')`: scanning left to right, every non-overlapping
   * occurrence of the tag is dropped; text that only becomes a tag once an
   * occurrence is dropped stays.
   */
  function StripDist(s: string): (r: string)
    ensures |r| <= |s|
    decreases |s|
  {
    if |s| < |DistPrefix| then s
    else if s[..|DistPrefix|] == DistPrefix then StripDist(s[|DistPrefix|..])
    else [s[0]] + StripDist(s[1..])
  }

  /** `[col.replace('dist_', '') for col in features if col.startswith('dist_')]`. */
  function DistrictChoices(features: seq<string>): (ds: seq<string>)
    ensures |ds| <= |features|
    ensures ds == [] <==> forall i :: 0 <= i < |features| ==> !IsDistColumn(features[i])
  {
    if features == [] then []
    else if IsDistColumn(features[0]) then [StripDist(features[0])] + DistrictChoices(features[1..])
    else DistrictChoices(features[1..])
  }

  /** A name without the tag in it is left alone by StripDist. */
  lemma {:induction false} StripDistNoTag(s: string)
    requires !ContainsDist(s)
    ensures StripDist(s) == s
  {
    if |s| >= |DistPrefix| {
      assert !TagAt(s, 0);
      assert !ContainsDist(s[1..]) by {
        forall i | TagAt(s[1..], i) ensures false {
          TagShift(s, i, 1);
        }
      }
      StripDistNoTag(s[1..]);
    }
  }

  /** A name with the tag in it is strictly shortened by StripDist. */
  lemma {:induction false} StripDistShortens(s: string)
    requires ContainsDist(s)
    ensures |StripDist(s)| < |s|
  {
    var i :| 0 <= i <= |s| && TagAt(s, i);
    if !TagAt(s, 0) {
      TagShift(s, i - 1, 1);
      StripDistShortens(s[1..]);
    }
  }

  /**
   * Round trip from a one-hot column back to its column: prefixing the
   * derived district with the tag gives the column back exactly when the
   * rest of the column name does not contain the tag again.
   */
  lemma DistColumnRoundTrip(c: string)
    requires IsDistColumn(c)
    ensures DistColumn(StripDist(c)) == c <==> !ContainsDist(c[|DistPrefix|..])
  {
    assert StripDist(c) == StripDist(c[|DistPrefix|..]);
    if ContainsDist(c[|DistPrefix|..]) {
      StripDistShortens(c[|DistPrefix|..]);
    } else {
      StripDistNoTag(c[|DistPrefix|..]);
      assert DistPrefix + c[|DistPrefix|..] == c;
    }
  }

  /** Round trip from a district to its column: the choice list offers it back. */
  lemma {:induction false} DistrictOfColumnOffered(features: seq<string>, i: nat, district: string)
    requires i < |features| && features[i] == DistColumn(district)
    requires !ContainsDist(district)
    ensures district in DistrictChoices(features)
  {
    if i == 0 {
      DistColumnRoundTrip(features[0]);
    } else {
      DistrictOfColumnOffered(features[1..], i - 1, district);
    }
  }

  /** Every offered district comes from some tagged feature. */
  lemma {:induction false} DistrictChoicesFromFeatures(features: seq<string>, k: nat)
    requires k < |DistrictChoices(features)|
    ensures exists i :: 0 <= i < |features| && IsDistColumn(features[i])
                     && DistrictChoices(features)[k] == StripDist(features[i])
  {
    if IsDistColumn(features[0]) {
      if k == 0 {
        assert IsDistColumn(features[0]) && DistrictChoices(features)[0] == StripDist(features[0]);
      } else {
        DistrictChoicesFromFeatures(features[1..], k - 1);
        var i :| 0 <= i < |features[1..]| && IsDistColumn(features[1..][i])
                 && DistrictChoices(features[1..])[k - 1] == StripDist(features[1..][i]);
        assert features[i + 1] == features[1..][i];
      }
    } else {
      DistrictChoicesFromFeatures(features[1..], k);
      var i :| 0 <= i < |features[1..]| && IsDistColumn(features[1..][i])
               && DistrictChoices(features[1..])[k] == StripDist(features[1..][i]);
      assert features[i + 1] == features[1..][i];
    }
  }

  /** Every tagged feature offers its stripped name as a district. */
  lemma {:induction false} DistrictChoicesComplete(features: seq<string>, i: nat)
    requires i < |features| && IsDistColumn(features[i])
    ensures StripDist(features[i]) in DistrictChoices(features)
  {
    if i > 0 {
      assert features[1..][i - 1] == features[i];
      DistrictChoicesComplete(features[1..], i - 1);
    }
  }
}
