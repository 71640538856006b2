/** The enrollment-profile stack's use of the template parser: the four
    replacement values built from the stack properties, and the profile
    rendered from a template with them. */
module MdmProfile {
  import opened Placeholder
  import opened TemplateParser

  /** The values the stack is given for the profile. */
  datatype StackProps = StackProps(
    scepChallengePassword: string,
    scepServerUrl: string,
    mdmServerUrl: string,
    mdmApnsTopic: string)

  const MdmServerUrlKey: string := "MDM_SERVER_URL"
  const ScepServerUrlKey: string := "SCEP_SERVER_URL"
  const ScepChallengePasswordKey: string := "SCEP_CHALLENGE_PASSWORD"
  const MdmApnsTopicKey: string := "MDM_APNS_TOPIC"

  /** The four names the profile template may use. */
  const LookupKeys: set<string> := {MdmServerUrlKey, ScepServerUrlKey, ScepChallengePasswordKey, MdmApnsTopicKey}

  /** The replacement lookup: the two server URLs with their endpoint
      suffixes appended, the password and the push topic as given. */
  function ReplacementLookup(p: StackProps): (r: map<string, string>)
    ensures r.Keys == LookupKeys
    ensures r[MdmServerUrlKey] == p.mdmServerUrl + "mdm"
    ensures r[ScepServerUrlKey] == p.scepServerUrl + "scep"
    ensures r[ScepChallengePasswordKey] == p.scepChallengePassword
    ensures r[MdmApnsTopicKey] == p.mdmApnsTopic
  {
    map[MdmServerUrlKey := p.mdmServerUrl + "mdm",
        ScepServerUrlKey := p.scepServerUrl + "scep",
        ScepChallengePasswordKey := p.scepChallengePassword,
        MdmApnsTopicKey := p.mdmApnsTopic]
  }

  /** Reading the stack properties back out of a lookup: the inverse of
      ReplacementLookup, defined on lookups of its shape. */
  function PropsOf(r: map<string, string>): (p: Option<StackProps>)
    ensures p.Some? ==> LookupKeys <= r.Keys
  {
    if LookupKeys <= r.Keys && |r[MdmServerUrlKey]| >= 3 && |r[ScepServerUrlKey]| >= 4 then
      var mdm, scep := r[MdmServerUrlKey], r[ScepServerUrlKey];
      Some(StackProps(r[ScepChallengePasswordKey], scep[..|scep| - 4], mdm[..|mdm| - 3], r[MdmApnsTopicKey]))
    else None
  }

  /** The lookup keeps every stack property: they can be read back from it. */
  lemma LookupRoundTrip(p: StackProps)
    ensures PropsOf(ReplacementLookup(p)) == Some(p)
  {
    var r := ReplacementLookup(p);
    assert r[MdmServerUrlKey][..|p.mdmServerUrl|] == p.mdmServerUrl;
    assert r[ScepServerUrlKey][..|p.scepServerUrl|] == p.scepServerUrl;
  }

  /** Different stack properties give different lookups. */
  lemma LookupInjective(p: StackProps, q: StackProps)
    requires ReplacementLookup(p) == ReplacementLookup(q)
    ensures p == q
  {
    LookupRoundTrip(p);
    LookupRoundTrip(q);
  }

  /** Upper-case letters and '_' may stand in a placeholder name. */
  lemma UpperNameChars()
    ensures forall c: char :: 'A' <= c <= 'Z' || c == '_' ==> IsNameChar(c)
  {
  }

  /** A string of upper-case letters and '_' is a placeholder name. */
  lemma UpperIsName(s: string)
    requires forall i :: 0 <= i < |s| ==> 'A' <= s[i] <= 'Z' || s[i] == '_'
    ensures IsName(s)
  {
    UpperNameChars();
  }

  /** Every key can be written as a placeholder name. */
  lemma KeysAreNames()
    ensures forall k :: k in LookupKeys ==> IsName(k)
  {
    UpperIsName(MdmServerUrlKey);
    UpperIsName(ScepServerUrlKey);
    UpperIsName(ScepChallengePasswordKey);
    UpperIsName(MdmApnsTopicKey);
  }

  /** Every name a template uses that is not one of the four keys is
      rendered as with the empty lookup. */
  lemma KeyFreeRender(template: string, p: StackProps)
    ensures (forall n :: n in Names(template) ==> n !in LookupKeys) ==>
            Render(template, ReplacementLookup(p)) == Render(template, map[])
  {
    if forall n :: n in Names(template) ==> n !in LookupKeys {
      RenderLocal(template, ReplacementLookup(p), map[]);
    }
  }

  /** The enrollment profile: the template with every placeholder replaced.
      A template that names none of the four keys renders the same whatever
      the stack properties are: each of its placeholders becomes "undefined". */
  function RenderProfile(template: string, p: StackProps): (r: string)
    ensures (forall n :: n in Names(template) ==> n !in LookupKeys) ==> r == Render(template, map[])
  {
    KeyFreeRender(template, p);
    Render(template, ReplacementLookup(p))
  }

  /** A placeholder naming one of the four keys is replaced by that key's value. */
  lemma ProfileKeyRendered(w1: string, key: string, w2: string, rest: string, p: StackProps)
    requires IsOptWs(w1) && IsOptWs(w2) && key in LookupKeys
    ensures RenderProfile(Text(w1, key, w2) + rest, p) == ReplacementLookup(p)[key] + RenderProfile(rest, p)
  {
    KeysAreNames();
    RenderPlaceholder(w1, key, w2, rest, ReplacementLookup(p));
  }

  /** A placeholder naming anything else becomes the text "undefined". */
  lemma ProfileUnknownName(w1: string, name: string, w2: string, rest: string, p: StackProps)
    requires IsOptWs(w1) && IsName(name) && IsOptWs(w2) && name !in LookupKeys
    ensures RenderProfile(Text(w1, name, w2) + rest, p) == "undefined" + RenderProfile(rest, p)
  {
    RenderMissingName(w1, name, w2, rest, ReplacementLookup(p));
  }

  /** When the template uses only the four keys, the strict variant succeeds
      with the profile; otherwise it reports a name that is not a key. */
  lemma ProfileStrict(template: string, p: StackProps)
    ensures (forall n :: n in Names(template) ==> n in LookupKeys) <==>
            RenderStrict(template, ReplacementLookup(p)) == Ok(RenderProfile(template, p))
    ensures RenderStrict(template, ReplacementLookup(p)).Err? ==>
            RenderStrict(template, ReplacementLookup(p)).error.name !in LookupKeys
  {
  }

  /** A line of the profile holding the MDM server URL: text without '{'
      around the placeholder is kept, and the placeholder becomes the URL
      with "mdm" appended. */
  lemma ProfileServerUrlLine(before: string, after: string, p: StackProps)
    requires '{' !in before && '{' !in after
    ensures RenderProfile(before + (Text("", MdmServerUrlKey, "") + after), p)
            == before + (p.mdmServerUrl + "mdm" + after)
  {
    var r := ReplacementLookup(p);
    RenderBraceFree(before, Text("", MdmServerUrlKey, "") + after, r);
    ProfileKeyRendered("", MdmServerUrlKey, "", after, p);
    RenderBraceFree(after, "", r);
    assert after + "" == after && Render("", r) == "";
  }
}
