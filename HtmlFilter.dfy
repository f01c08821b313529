/**
 * The HTML filter object: it pre-filters its input, lets the XML parser drive
 * its three event handlers, which append to the output buffer and keep the
 * stack of suppressed flags, then post-filters the output.
 */
module HtmlFilter {
  import opened Wrappers
  import opened ByteStrings
  import opened Policies
  import opened Events
  import opened SiteRules

  /** The parts of a `Config` object the filter uses. */
  datatype Config = Config(
    getRules: Bytes -> Rules,                                // a RuleLoader over this config, `getRules(website)`
    configureTag: TagPolicy -> TagPolicy,                    // the whitelist forwarded to the Tag object
    configureAttribute: AttributePolicy -> AttributePolicy)  // the options forwarded to the Attribute object

  /** Collaborators that are not part of this model. */
  datatype Env = Env(
    htmlToXml: Bytes -> Bytes,                 // XmlParser::HtmlToXml
    parse: Bytes -> seq<Event>,                // the events the XML parser delivers before it stops
    newTag: TagPolicy,                         // new Tag
    newAttribute: Bytes -> AttributePolicy,    // new Attribute(new Url(website))
    escape: Bytes -> Bytes,                    // Filter::escape
    regex: Regex,                              // preg_match and preg_replace
    defaultConfig: Config,                     // new Config
    fullPath: Bytes -> Bytes)                  // (new Url(website))->getFullPath()

  class Html {
    const env: Env
    const website: Bytes
    var config: Option<Config>
    var input: Bytes
    var output: Bytes
    var emptyTags: seq<bool>
    var empty: bool
    var tag: TagPolicy
    var attribute: AttributePolicy

    constructor (html: Bytes, website: Bytes, env: Env)
      ensures this.env == env && this.website == website && config == None
      ensures input == env.htmlToXml(html) && output == [] && emptyTags == [] && empty
      ensures tag == env.newTag && attribute == env.newAttribute(website)
    {
      this.env := env;
      this.website := website;
      config := None;
      input := env.htmlToXml(html);
      output := [];
      emptyTags := [];
      empty := true;
      tag := env.newTag;
      attribute := env.newAttribute(website);
    }

    /** What the handlers consult. */
    ghost function Policy(): Handlers
      reads this`tag, this`attribute
    {
      Handlers(tag, attribute, env.escape)
    }

    /** The handlers' state. */
    ghost function Snapshot(): State
      reads this`output, this`emptyTags, this`empty
    {
      State(output, emptyTags, empty)
    }

    /** The rules `filterRules` works with: those of the configuration, or of a default one when none is set. */
    ghost function RulesInEffect(): Rules
      reads this`config
    {
      (if config == None then env.defaultConfig else config.value).getRules(website)
    }

    /** The post-filter pipeline, in its order. */
    ghost function PostFiltered(content: Bytes): Bytes
      reads this`tag, this`config
    {
      var cleaned := tag.removeEmptyTags(content);
      var ruled := FilterRulesSpec(env.regex, RulesInEffect(), env.fullPath(website), cleaned);
      Trim(tag.removeMultipleBreakTags(ruled))
    }

    /** A `null` configuration is stored and leaves the tag and attribute policies as they were. */
    method SetConfig(config: Option<Config>)
      modifies this`config, this`tag, this`attribute
      ensures this.config == config
      ensures config == None ==> tag == old(tag) && attribute == old(attribute)
      ensures config != None ==> tag == config.value.configureTag(old(tag))
                                 && attribute == config.value.configureAttribute(old(attribute))
    {
      this.config := config;
      if config != None {
        attribute := config.value.configureAttribute(attribute);
        tag := config.value.configureTag(tag);
      }
    }

    /**
     * Opening tag: exactly one flag is pushed whatever the decision; it is
     * `false` exactly when the open tag was appended, which happens exactly
     * when the tag is allowed and its filtered attributes hold the required
     * ones. `empty` is left equal to the flag pushed.
     */
    method StartTag(name: Bytes, attrs: Attrs)
      modifies this`output, this`emptyTags, this`empty
      ensures |emptyTags| == |old(emptyTags)| + 1 && emptyTags[..|old(emptyTags)|] == old(emptyTags)
      ensures emptyTags[|emptyTags| - 1] == empty
      ensures empty <==> !OpenEmitted(Policy(), name, attrs)
      ensures !empty ==> output == old(output) + OpenMarkup(Policy(), name, attrs)
      ensures empty ==> output == old(output)
      ensures Snapshot() == StartTagStep(Policy(), old(Snapshot()), name, attrs)
    {
      empty := true;
      if tag.isAllowed(name, attrs) {
        var filtered := attribute.filter(name, attrs);
        if attribute.hasRequiredAttributes(name, filtered) {
          var forced := attribute.addAttributes(name, filtered);
          output := output + tag.openHtmlTag(name, attribute.toHtml(forced));
          empty := false;
        }
      }
      emptyTags := emptyTags + [empty];
      assert emptyTags[..|old(emptyTags)|] == old(emptyTags);
    }

    /**
     * Closing tag: one flag is popped from a non-empty stack and the close tag
     * is appended exactly when that flag is `false` and the tag is allowed. On
     * an empty stack nothing is popped, and the close tag is appended exactly
     * when the tag is allowed.
     */
    method EndTag(name: Bytes)
      modifies this`output, this`emptyTags
      ensures old(emptyTags) != [] ==> emptyTags == old(emptyTags)[..|old(emptyTags)| - 1]
      ensures old(emptyTags) == [] ==> emptyTags == []
      ensures var written := (old(emptyTags) == [] || !old(emptyTags)[|old(emptyTags)| - 1]) && tag.isAllowedTag(name);
              output == old(output) + (if written then tag.closeHtmlTag(name) else [])
      ensures Snapshot() == EndTagStep(Policy(), old(Snapshot()), name)
    {
      var popped: Option<bool> := None;
      if emptyTags != [] {
        popped := Some(emptyTags[|emptyTags| - 1]);
        emptyTags := emptyTags[..|emptyTags| - 1];
      }
      if popped != Some(true) && tag.isAllowedTag(name) {
        output := output + tag.closeHtmlTag(name);
      }
    }

    /** Character data: appended with no-break spaces made plain and then escaped. */
    method DataTag(content: Bytes)
      modifies this`output
      ensures output == old(output) + env.escape(ReplaceNbsp(content))
      ensures Snapshot() == DataTagStep(Policy(), old(Snapshot()), content)
    {
      var plain := ReplaceNbsp(content);
      output := output + env.escape(plain);
    }

    /** Blacklisted tags and their content are removed from the input before it is parsed. */
    method PreFilter()
      modifies this`input
      ensures input == tag.removeBlacklistedTags(old(input))
    {
      input := tag.removeBlacklistedTags(input);
    }

    /**
     * Every rule whose pattern matches the site's full path is applied, rules
     * in declared order and the substitutions of each rule in declared order.
     */
    method FilterRules(content: Bytes) returns (r: Bytes)
      ensures r == FilterRulesSpec(env.regex, RulesInEffect(), env.fullPath(website), content)
      ensures RulesInEffect().filter == None ==> r == content
    {
      var cfg := if config == None then env.defaultConfig else config.value;
      var rules := cfg.getRules(website);
      var subUrl := env.fullPath(website);
      r := content;
      if rules.filter != None {
        var patterns := rules.filter.value;
        var i := 0;
        while i < |patterns|
          invariant 0 <= i <= |patterns|
          invariant r == ApplySiteRules(env.regex, patterns[..i], subUrl, content)
        {
          var rule := patterns[i];
          if env.regex.matches(rule.pattern, subUrl) {
            ghost var before := r;
            var j := 0;
            while j < |rule.substitutions|
              invariant 0 <= j <= |rule.substitutions|
              invariant r == ApplySubstitutions(env.regex, rule.substitutions[..j], before)
            {
              r := Substitute(env.regex, rule.substitutions[j], r);
              assert rule.substitutions[..j + 1][..j] == rule.substitutions[..j];
              j := j + 1;
            }
            assert rule.substitutions[..j] == rule.substitutions;
          }
          assert patterns[..i + 1][..i] == patterns[..i];
          i := i + 1;
        }
        assert patterns[..i] == patterns;
      }
    }

    /** Empty tags, then site rules, then repeated line breaks, then surrounding whitespace. */
    method PostFilter()
      modifies this`output
      ensures output == PostFiltered(old(output))
      ensures Trimmed(output)
    {
      output := tag.removeEmptyTags(output);
      output := FilterRules(output);
      output := tag.removeMultipleBreakTags(output);
      output := Trim(output);
    }

    /**
     * The XML parser's dispatch: each event, in order, goes to its handler, so
     * the state afterwards is the handlers' run over the events.
     */
    method Parse(events: seq<Event>)
      modifies this`output, this`emptyTags, this`empty
      ensures Snapshot() == Run(Policy(), old(Snapshot()), events)
      ensures old(emptyTags) == [] ==> output == old(output) + Rendered(Policy(), events)
      ensures old(emptyTags) == [] ==> emptyTags == Suppressed(Policy(), OpenElements(events))
    {
      var i := 0;
      while i < |events|
        invariant 0 <= i <= |events|
        invariant Snapshot() == Run(Policy(), old(Snapshot()), events[..i])
      {
        assert events[..i + 1][..i] == events[..i];
        match events[i] {
          case Open(name, attrs) => StartTag(name, attrs);
          case Close(name) => EndTag(name);
          case Text(content) => DataTag(content);
        }
        i := i + 1;
      }
      assert events[..i] == events;
      if old(emptyTags) == [] {
        RunIsRendered(Policy(), old(output), old(empty), events);
      }
    }

    /**
     * Pre-filter, parse, post-filter. The handlers see the parser's events in
     * order; the output is the post-filtered markup they wrote, and nothing of
     * the input reaches it except through them.
     */
    method Execute() returns (r: Bytes)
      modifies this
      ensures input == old(tag).removeBlacklistedTags(old(input))
      ensures config == old(config) && tag == old(tag) && attribute == old(attribute)
      ensures var after := Run(Policy(), old(Snapshot()), env.parse(input));
              output == PostFiltered(after.output) && emptyTags == after.emptyTags && empty == after.empty
      ensures old(emptyTags) == [] ==> output == PostFiltered(old(output) + Rendered(Policy(), env.parse(input)))
      ensures r == output && Trimmed(r)
    {
      ghost var h := Policy();
      ghost var s0 := Snapshot();
      PreFilter();
      var events := env.parse(input);
      Parse(events);
      ghost var after := Run(h, s0, events);
      assert Snapshot() == after;
      assert s0.emptyTags == [] ==> after.output == s0.output + Rendered(h, events);
      PostFilter();
      r := output;
    }
  }
}
