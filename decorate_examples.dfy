/**
 * The documented behaviour of the decorator on concrete nodes: the
 * `parseComment` and `applyProps` doc examples, and a directive merged
 * onto the element before it.
 */
module DecorateExamples {
  import opened Wrappers
  import opened Hast
  import opened CommentPattern
  import opened Decorator
  import PropsExamples
  import Patterns

  const HelloWorld: Node := Comment("{.hello.world}")

  lemma HelloWorldEnvelope()
    ensures Envelope("{.hello.world}") == Some(".hello.world")
  {
    var body := ".hello.world";
    assert "{.hello.world}" == [] + "{" + [] + body + [] + "}" + [];
    assert Trimmed(body) && OneLine(body);
    EnvelopeOf("{.hello.world}", [], [], body, [], []);
  }

  /** `parseComment({ type: 'comment', value: '{.hello.world}' })` gives `{ className: ['hello', 'world'] }`. */
  lemma ParseCommentExample()
    ensures IsDirective(HelloWorld) && Safe(HelloWorld)
    ensures ParseComment(HelloWorld) == Some(Props(Some(["hello", "world"]), map[]))
  {
    HelloWorldEnvelope();
    PropsExamples.HelloWorld();
  }

  /** A text node, an element and an unbraced comment encode nothing. */
  lemma ParseCommentNothing()
    ensures ParseComment(Text("{.hello.world}")) == None
    ensures ParseComment(Element("p", None, Missing)) == None
    ensures !IsDirective(Comment(".hello.world")) && ParseComment(Comment(".hello.world")) == None
  {
    UnbracedComment(".hello.world");
  }

  /** A comment whose text starts with neither a blank nor `{` encodes nothing. */
  lemma UnbracedComment(s: string)
    requires s != [] && !Patterns.IsSpace(s[0]) && s[0] != '{'
    ensures !IsDirective(Comment(s)) && ParseComment(Comment(s)) == None
  {
    EnvelopeNeedsOpen(s);
  }

  /** `applyProps({ type: 'element' }, { className: ['hello'] })` gives the element `properties: { className: ['hello'] }`. */
  lemma ApplyPropsExample()
    ensures ApplyProps(Element("div", None, Missing), Props(Some(["hello"]), map[]))
         == Element("div", Some(Props(Some(["hello"]), map[])), Missing)
  {
    assert ClassList(Empty) + ClassList(Props(Some(["hello"]), map[])) == ["hello"];
  }

  const HelloProps: PropertyMap := Props(Some(["hello", "world"]), map[])
  const Paragraph: Node := Element("p", None, Present([]))

  lemma ApplyHello()
    ensures ApplyProps(Paragraph, HelloProps) == Element("p", Some(HelloProps), Present([]))
  {
    assert ClassList(Empty) + ClassList(HelloProps) == ["hello", "world"];
  }

  /** A directive after a paragraph decorates the paragraph and disappears. */
  lemma FragmentExample()
    ensures Decoratable(Paragraph) && Decoratable(HelloWorld)
    ensures DecorateFragment([Paragraph, HelloWorld]) == [Element("p", Some(HelloProps), Present([]))]
  {
    ParseCommentExample();
    assert Clean(Paragraph);
    DirectiveAfterElement(Paragraph, HelloWorld, HelloProps);
    ApplyHello();
  }

  /** After a text node a directive has no effect: the text is the last entry, and it is no element. */
  lemma AfterText()
    ensures IsDirective(HelloWorld) && Safe(HelloWorld)
    ensures ReduceNodes([Text("x")], HelloWorld) == [Text("x")]
  {
    ParseCommentExample();
  }
}
