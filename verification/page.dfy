/** The section anchors declared on the landing page. */
module Page {

  /** The `id` attributes of the four page sections: hero, services, technology and contact. */
  const SectionIds: set<string> := {"hero", "services", "technology", "contact"}
}
