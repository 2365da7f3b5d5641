/**
 * The hero section at the top of the portfolio page: a headline that cycles
 * through three roles on a periodic tick, two buttons that scroll to the
 * projects and the contact sections, and a scroll indicator that goes to
 * the about section.
 */
module HeroSection {
  import opened Dom

  /** The roles the headline cycles through, in order. */
  const Roles: seq<string> := [
    "Software Engineer",
    "Project Manager",
    "UI/UX Designer"
  ]

  /** The role index after one tick from `prev`: the next role, wrapping from
      the last one back to the first. */
  function NextRole(prev: nat): (next: nat)
    ensures next < |Roles|
    ensures prev + 1 < |Roles| ==> next == prev + 1
    ensures prev == |Roles| - 1 ==> next == 0
  {
    (prev + 1) % |Roles|
  }

  /** The role index after `n` ticks from `role`. */
  function Ticks(role: nat, n: nat): (r: nat)
    requires role < |Roles|
    ensures r < |Roles|
  {
    if n == 0 then role else NextRole(Ticks(role, n - 1))
  }

  /** `n` ticks move the index `n` places forward around the cycle. */
  lemma {:induction false} TicksAdvanceBy(role: nat, n: nat)
    requires role < |Roles|
    ensures Ticks(role, n) == (role + n) % |Roles|
  {
    if n > 0 {
      TicksAdvanceBy(role, n - 1);
      var m := role + n - 1;
      assert (m % |Roles| + 1) % |Roles| == (m + 1) % |Roles|;
    }
  }

  /** Any whole number of rounds brings the headline back to where it was. */
  lemma FullCyclesReturn(role: nat, rounds: nat)
    requires role < |Roles|
    ensures Ticks(role, rounds * |Roles|) == role
  {
    TicksAdvanceBy(role, rounds * |Roles|);
    assert (role + rounds * |Roles|) % |Roles| == role % |Roles|;
  }

  /** The hero section's state, updated in place by the interval tick. */
  class Hero {
    var currentRole: nat

    /** The index always names one of the roles. */
    ghost predicate Valid()
      reads this
    {
      currentRole < |Roles|
    }

    /** The headline starts at the first role. */
    constructor ()
      ensures Valid() && currentRole == 0
    {
      currentRole := 0;
    }

    /** One tick of the interval timer. */
    method Tick()
      requires Valid()
      modifies this
      ensures Valid()
      ensures currentRole == NextRole(old(currentRole))
    {
      currentRole := NextRole(currentRole);
    }

    /** The role the headline shows. */
    function ShownRole(): (role: string)
      reads this
      requires Valid()
      ensures role in Roles
    {
      Roles[currentRole]
    }

    /** The "View Projects" button: scrolls to the element with id "projects"
        when the document has one (reported as `scrollRequested`) and does
        nothing otherwise. It changes no state. */
    method ScrollToProjects(document: Document) returns (scrollRequested: bool)
      ensures scrollRequested <==> "projects" in document
    {
      scrollRequested := "projects" in document;
    }

    /** The "Contact Me" button: the same for the element with id "contact". */
    method ScrollToContact(document: Document) returns (scrollRequested: bool)
      ensures scrollRequested <==> "contact" in document
    {
      scrollRequested := "contact" in document;
    }

    /** The "Scroll" indicator under the buttons: the same for the element
        with id "about". */
    method ScrollToAbout(document: Document) returns (scrollRequested: bool)
      ensures scrollRequested <==> "about" in document
    {
      scrollRequested := "about" in document;
    }
  }

  /** Three ticks run through every role and return to the first one. */
  method RoleRotation()
  {
    var hero := new Hero();
    assert hero.ShownRole() == "Software Engineer";
    hero.Tick();
    assert hero.ShownRole() == "Project Manager";
    hero.Tick();
    assert hero.ShownRole() == "UI/UX Designer";
    hero.Tick();
    assert hero.currentRole == 0;
    var requested := hero.ScrollToProjects(map["contact" := Element(3000, 900)]);
    assert !requested && hero.currentRole == 0;
  }
}
