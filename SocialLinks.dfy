/**
 * A student's social links: the form check that keeps one link per user and
 * platform, and the add, edit and delete views that go through it. The
 * table of links is a map from primary key to link.
 */
module SocialLinks {
  import opened Wrappers

  datatype Platform = LinkedIn | GitHub | Twitter | Portfolio | Website | Instagram | Dribbble | Behance | Other

  /** The display names of PLATFORM_CHOICES. */
  function Display(p: Platform): string
  {
    match p
    case LinkedIn => "LinkedIn"
    case GitHub => "GitHub"
    case Twitter => "Twitter"
    case Portfolio => "Portfolio Website"
    case Website => "Personal Website"
    case Instagram => "Instagram"
    case Dribbble => "Dribbble"
    case Behance => "Behance"
    case Other => "Other"
  }

  datatype Link = Link(user: int, platform: Platform, url: string, displayName: string)

  type Links = map<int, Link>

  /** The form's cleaned fields; the platform is absent when the field did
      not validate. */
  datatype Cleaned = Cleaned(platform: Option<Platform>, url: string, displayName: string)

  /** The user's links on the platform other than the one being edited: the
      queryset filtered on user and platform, without the instance's key (a
      new instance has no key, so nothing is left out). */
  function Others(links: Links, user: int, platform: Platform, instancePk: Option<int>): set<int>
  {
    set pk | pk in links && links[pk].user == user && links[pk].platform == platform && Some(pk) != instancePk
  }

  /** The message of the validation error. */
  function DuplicateMessage(p: Platform): string
  {
    "You already have a social link for " + Display(p) + "."
  }

  /** SocialLinkForm.clean: with a user and a platform, rejects the data when
      the user already has another link on that platform; otherwise returns
      the data unchanged. */
  function Clean(user: Option<int>, instancePk: Option<int>, data: Cleaned, links: Links): (r: Result<Cleaned, string>)
    ensures r.Ok? ==> r.value == data
    ensures user.None? || data.platform.None? ==> r.Ok?
    ensures r.Err? <==>
      && user.Some? && data.platform.Some?
      && exists pk :: pk in links && links[pk].user == user.value && links[pk].platform == data.platform.value
                      && Some(pk) != instancePk
    ensures r.Err? ==> r.error == DuplicateMessage(data.platform.value)
  {
    if user.Some? && data.platform.Some? then
      OthersEmpty(links, user.value, data.platform.value, instancePk);
      if Others(links, user.value, data.platform.value, instancePk) != {}
      then Err(DuplicateMessage(data.platform.value))
      else Ok(data)
    else Ok(data)
  }

  /** The queryset is empty exactly when no other link of the user is on the
      platform. */
  lemma OthersEmpty(links: Links, user: int, platform: Platform, instancePk: Option<int>)
    ensures Others(links, user, platform, instancePk) == {} <==>
      forall pk :: pk in links && links[pk].user == user && links[pk].platform == platform ==> Some(pk) == instancePk
  {
    var others := Others(links, user, platform, instancePk);
    if forall pk :: pk in links && links[pk].user == user && links[pk].platform == platform ==> Some(pk) == instancePk {
      assert others == {};
    } else {
      var pk :| pk in links && links[pk].user == user && links[pk].platform == platform && Some(pk) != instancePk;
      assert pk in others;
    }
  }

  /** Each user has at most one link per platform (unique_together on user
      and platform). */
  predicate UniquePerPlatform(links: Links)
  {
    forall a, b :: a in links && b in links && a != b && links[a].user == links[b].user
                   ==> links[a].platform != links[b].platform
  }

  /** Re-saving a link with its own platform passes the check when the table
      already holds one link per user and platform. */
  lemma ResaveOwnPlatform(links: Links, pk: int, url: string, displayName: string)
    requires UniquePerPlatform(links) && pk in links
    ensures var link := links[pk];
            Clean(Some(link.user), Some(pk), Cleaned(Some(link.platform), url, displayName), links).Ok?
  {
    var link := links[pk];
    OthersEmpty(links, link.user, link.platform, Some(pk));
  }

  // ---------------------------------------------------------------------
  // The views

  datatype Failure = NotFound | Invalid(message: string)

  /** add_social_link on a valid POST: the form is checked for the user and
      the link saved under the key the database assigns. */
  function AddLink(links: Links, user: int, platform: Platform, url: string, displayName: string, pk: int)
    : (r: Result<Links, Failure>)
    requires pk !in links
    ensures r.Ok? <==> forall q :: q in links && links[q].user == user ==> links[q].platform != platform
    ensures r.Ok? ==> r.value == links[pk := Link(user, platform, url, displayName)]
    ensures r.Err? ==> r.error == Invalid(DuplicateMessage(platform))
  {
    match Clean(Some(user), None, Cleaned(Some(platform), url, displayName), links)
    case Ok(_) => Ok(links[pk := Link(user, platform, url, displayName)])
    case Err(message) => Err(Invalid(message))
  }

  /** get_object_or_404(SocialLink, pk=link_id, user=request.user). */
  predicate Owns(links: Links, user: int, linkId: int)
  {
    linkId in links && links[linkId].user == user
  }

  /** edit_social_link on a valid POST: 404 unless the link is the user's;
      otherwise the form is checked with the link as instance and the link
      updated in place. */
  function EditLink(links: Links, user: int, linkId: int, platform: Platform, url: string, displayName: string)
    : (r: Result<Links, Failure>)
    ensures !Owns(links, user, linkId) <==> r == Err(NotFound)
    ensures Owns(links, user, linkId) ==>
      (r.Ok? <==> forall q :: q in links && q != linkId && links[q].user == user ==> links[q].platform != platform)
    ensures r.Ok? ==> r.value == links[linkId := Link(user, platform, url, displayName)]
  {
    if !Owns(links, user, linkId) then Err(NotFound)
    else match Clean(Some(user), Some(linkId), Cleaned(Some(platform), url, displayName), links)
      case Ok(_) => Ok(links[linkId := Link(user, platform, url, displayName)])
      case Err(message) => Err(Invalid(message))
  }

  /** delete_social_link on POST: 404 unless the link is the user's. */
  function DeleteLink(links: Links, user: int, linkId: int): (r: Result<Links, Failure>)
    ensures r.Ok? <==> Owns(links, user, linkId)
    ensures r.Ok? ==> r.value == links - {linkId}
  {
    if Owns(links, user, linkId) then Ok(links - {linkId}) else Err(NotFound)
  }

  /** One POST to one of the three views. */
  datatype Request =
    | Add(user: int, platform: Platform, url: string, displayName: string, pk: int)
    | Edit(user: int, linkId: int, platform: Platform, url: string, displayName: string)
    | Delete(user: int, linkId: int)

  /** A request's effect on the table; a rejected request changes nothing,
      and an add whose key is taken is not one the database would issue. */
  function Apply(links: Links, request: Request): Links
  {
    var r := match request
      case Add(user, platform, url, displayName, pk) =>
        if pk in links then Err(NotFound) else AddLink(links, user, platform, url, displayName, pk)
      case Edit(user, linkId, platform, url, displayName) => EditLink(links, user, linkId, platform, url, displayName)
      case Delete(user, linkId) => DeleteLink(links, user, linkId);
    if r.Ok? then r.value else links
  }

  function ApplyAll(links: Links, requests: seq<Request>): Links
    decreases |requests|
  {
    if requests == [] then links else ApplyAll(Apply(links, requests[0]), requests[1..])
  }

  /** Every request keeps one link per user and platform. */
  lemma ApplyKeepsUnique(links: Links, request: Request)
    requires UniquePerPlatform(links)
    ensures UniquePerPlatform(Apply(links, request))
  {
    var after := Apply(links, request);
    forall a, b | a in after && b in after && a != b && after[a].user == after[b].user
      ensures after[a].platform != after[b].platform
    {
      if a in links && b in links && links[a] == after[a] && links[b] == after[b] {
      } else if request.Add? || request.Edit? {
        var key := if request.Add? then request.pk else request.linkId;
        assert a == key || b == key;
      }
    }
  }

  /** After any sequence of adds, edits and deletes, each user still has at
      most one link per platform. */
  lemma {:induction false} ApplyAllKeepsUnique(links: Links, requests: seq<Request>)
    requires UniquePerPlatform(links)
    ensures UniquePerPlatform(ApplyAll(links, requests))
    decreases |requests|
  {
    if requests != [] {
      ApplyKeepsUnique(links, requests[0]);
      ApplyAllKeepsUnique(Apply(links, requests[0]), requests[1..]);
    }
  }
}
