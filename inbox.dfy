/**
 * The internal messaging widget: the messages kept in the browser, the received and
 * sent lists (newest first, narrowed by a search text and a read state), sending,
 * opening a message, and the unread badge.
 */
module Inbox {
  import opened Wrappers
  import opened Seqs
  import opened Text

  /** One stored message; `id` and `fecha` are the clock reading at sending time. */
  datatype Message = Message(id: int, remitente: string, destinatario: string, asunto: string,
                             mensaje: string, fecha: int, leido: bool)

  /** The user the page acts for: the session user, then the stored one, then `Invitado`. */
  function CurrentUser(session: Option<string>, stored: Option<string>): (u: string)
    ensures u != ""
    ensures session.Some? && session.value != "" ==> u == session.value
  {
    if session.Some? && session.value != "" then session.value
    else if stored.Some? && stored.value != "" then stored.value
    else "Invitado"
  }

  // ---------------------------------------------------------------- newest first

  /** Every message is at least as new as the ones after it. */
  predicate NewestFirst(s: seq<Message>) {
    forall i, j :: 0 <= i < j < |s| ==> s[j].fecha <= s[i].fecha
  }

  /** `m` placed before the first message strictly older than it. */
  function Insert(m: Message, s: seq<Message>): (r: seq<Message>)
    ensures multiset(r) == multiset(s) + multiset{m}
    decreases |s|
  {
    if s == [] then [m]
    else if s[0].fecha < m.fecha then [m] + s
    else
      assert s == [s[0]] + s[1..];
      [s[0]] + Insert(m, s[1..])
  }

  /** `.sort((a, b) => new Date(b.fecha) - new Date(a.fecha))`: newest first. */
  function SortByDate(s: seq<Message>): (r: seq<Message>)
    ensures multiset(r) == multiset(s)
    decreases |s|
  {
    if s == [] then []
    else
      assert s == s[..|s| - 1] + [s[|s| - 1]];
      Insert(s[|s| - 1], SortByDate(s[..|s| - 1]))
  }

  lemma NewestFirstCons(h: Message, t: seq<Message>)
    ensures NewestFirst([h] + t) <==> NewestFirst(t) && forall x :: x in t ==> x.fecha <= h.fecha
  {
    var s := [h] + t;
    assert s[0] == h;
    assert forall k :: 0 <= k < |t| ==> s[k + 1] == t[k];
    if NewestFirst(s) {
      forall x | x in t ensures x.fecha <= h.fecha {
        var k :| 0 <= k < |t| && t[k] == x;
        assert s[k + 1] == x;
      }
    }
    if NewestFirst(t) && forall x :: x in t ==> x.fecha <= h.fecha {
      forall i, j | 0 <= i < j < |s| ensures s[j].fecha <= s[i].fecha {
        assert s[j] == t[j - 1];
        if i > 0 {
          assert s[i] == t[i - 1];
        } else {
          assert t[j - 1] in t;
        }
      }
    }
  }

  lemma {:induction false} InsertNewestFirst(m: Message, s: seq<Message>)
    requires NewestFirst(s)
    ensures NewestFirst(Insert(m, s))
    decreases |s|
  {
    if s == [] {
    } else if s[0].fecha < m.fecha {
      forall x | x in s ensures x.fecha <= m.fecha {
        var k :| 0 <= k < |s| && s[k] == x;
      }
      NewestFirstCons(m, s);
    } else {
      assert s == [s[0]] + s[1..];
      NewestFirstCons(s[0], s[1..]);
      InsertNewestFirst(m, s[1..]);
      forall x | x in Insert(m, s[1..]) ensures x.fecha <= s[0].fecha {
        assert x in multiset(Insert(m, s[1..]));
        if x != m {
          assert x in multiset(s[1..]);
        }
      }
      NewestFirstCons(s[0], Insert(m, s[1..]));
    }
  }

  /** The sort orders newest first and keeps every message exactly as often as before. */
  lemma {:induction false} SortByDateSpec(s: seq<Message>)
    ensures NewestFirst(SortByDate(s)) && multiset(SortByDate(s)) == multiset(s)
    decreases |s|
  {
    if s != [] {
      SortByDateSpec(s[..|s| - 1]);
      InsertNewestFirst(s[|s| - 1], SortByDate(s[..|s| - 1]));
    }
  }

  /** Filtering an ordered list keeps it ordered. */
  lemma NewestFirstInit(init: seq<Message>, x: Message)
    requires NewestFirst(init + [x])
    ensures NewestFirst(init)
    ensures forall i :: 0 <= i < |init| ==> x.fecha <= init[i].fecha
  {
    var s := init + [x];
    forall i, j | 0 <= i < j < |init| ensures init[j].fecha <= init[i].fecha {
      assert s[i] == init[i] && s[j] == init[j];
    }
    forall i | 0 <= i < |init| ensures x.fecha <= init[i].fecha {
      assert s[i] == init[i] && s[|init|] == x;
    }
  }

  lemma NewestFirstSnoc(f: seq<Message>, x: Message)
    requires NewestFirst(f)
    requires forall i :: 0 <= i < |f| ==> x.fecha <= f[i].fecha
    ensures NewestFirst(f + [x])
  {
  }

  lemma {:induction false} FilterNewestFirst(s: seq<Message>, p: Message -> bool)
    requires NewestFirst(s)
    ensures NewestFirst(Filter(s, p))
    decreases |s|
  {
    if s != [] {
      var init, x := s[..|s| - 1], s[|s| - 1];
      assert s == init + [x];
      NewestFirstInit(init, x);
      FilterNewestFirst(init, p);
      if p(x) {
        var f := Filter(init, p);
        forall i | 0 <= i < |f| ensures x.fecha <= f[i].fecha {
          assert f[i] in init;
        }
        FilterSnocKeep(init, x, p);
        NewestFirstSnoc(f, x);
      } else {
        FilterSnocSkip(init, x, p);
      }
    }
  }

  // ---------------------------------------------------------------- lists

  datatype Box = Recibidos | Enviados

  /** Whether a message belongs to the user's list: addressed to them, or sent by them. */
  predicate InBox(m: Message, user: string, box: Box) {
    match box
    case Recibidos => m.destinatario == user
    case Enviados => m.remitente == user
  }

  function OwnedBy(user: string, box: Box): Message -> bool {
    (m: Message) => InBox(m, user, box)
  }

  /** The user's received or sent messages, newest first. */
  function BoxList(ms: seq<Message>, user: string, box: Box): seq<Message> {
    SortByDate(Filter(ms, OwnedBy(user, box)))
  }

  /** The text the search looks in. */
  function SearchText(m: Message): string {
    ToLower(m.remitente + " " + m.destinatario + " " + m.asunto + " " + m.mensaje)
  }

  /** `!searchText || texto.includes(searchText)` with the input trimmed and lowered. */
  predicate MatchesSearch(m: Message, search: string) {
    var q := ToLower(Trim(search));
    q == "" || Contains(SearchText(m), q)
  }

  /** The read-state filter of the received list; `""` falls back to `todos`. */
  predicate MatchesEstado(m: Message, box: Box, estado: string) {
    box == Enviados || estado == "" || estado == "todos" ||
    (if estado == "no-leidos" then !m.leido else m.leido)
  }

  function Shown(box: Box, search: string, estado: string): Message -> bool {
    (m: Message) => MatchesSearch(m, search) && MatchesEstado(m, box, estado)
  }

  /** The messages `mostrarMensajes` lists. */
  function Listed(ms: seq<Message>, user: string, box: Box, search: string, estado: string): seq<Message> {
    Filter(BoxList(ms, user, box), Shown(box, search, estado))
  }

  /**
   * A message is listed exactly when it is in the user's list and matches the search
   * and the read state; the list is newest first.
   */
  lemma ListedSpec(ms: seq<Message>, user: string, box: Box, search: string, estado: string)
    ensures NewestFirst(Listed(ms, user, box, search, estado))
    ensures forall m :: m in Listed(ms, user, box, search, estado) <==>
      m in ms && InBox(m, user, box) && MatchesSearch(m, search) && MatchesEstado(m, box, estado)
  {
    var base := Filter(ms, OwnedBy(user, box));
    SortByDateSpec(base);
    FilterNewestFirst(BoxList(ms, user, box), Shown(box, search, estado));
    forall m ensures m in BoxList(ms, user, box) <==> m in base {
      assert m in BoxList(ms, user, box) <==> m in multiset(BoxList(ms, user, box));
      assert m in base <==> m in multiset(base);
    }
  }

  /** Every message of the list, narrowed or not, appears as often as it is stored. */
  lemma BoxListCounts(ms: seq<Message>, user: string, box: Box)
    ensures NewestFirst(BoxList(ms, user, box))
    ensures multiset(BoxList(ms, user, box)) == multiset(Filter(ms, OwnedBy(user, box)))
  {
    SortByDateSpec(Filter(ms, OwnedBy(user, box)));
  }

  /** A blank search with no read state shows the whole list. */
  lemma ListedAll(ms: seq<Message>, user: string, box: Box, search: string)
    requires Blank(search)
    ensures Listed(ms, user, box, search, "todos") == BoxList(ms, user, box)
  {
    TrimEmpty(search);
    FilterAll(BoxList(ms, user, box), Shown(box, search, "todos"));
  }

  // ---------------------------------------------------------------- counter

  function UnreadFor(user: string): Message -> bool {
    (m: Message) => m.destinatario == user && !m.leido
  }

  /** The number of unread messages addressed to the user. */
  function UnreadCount(ms: seq<Message>, user: string): nat {
    |Filter(ms, UnreadFor(user))|
  }

  /** The badge text, or `None` when the badge is removed. */
  function Badge(count: nat): Option<string> {
    if count == 0 then None
    else if count > 9 then Some("9+")
    else Some(NatToString(count))
  }

  /** The badge shows from one message; above nine it reads `9+`, else the single digit. */
  lemma BadgeSpec(count: nat)
    ensures Badge(count).None? <==> count == 0
    ensures count > 9 ==> Badge(count) == Some("9+")
    ensures 0 < count <= 9 ==> Badge(count) == Some([('0' as int + count) as char])
  {
    if 0 < count <= 9 {
      assert count % 10 == count;
      assert NatToString(count) == [] + [('0' as int + count % 10) as char];
      assert [] + [('0' as int + count) as char] == [('0' as int + count) as char];
    }
  }

  // ---------------------------------------------------------------- sending

  /** What sending leaves in the store: the fields are checked after trimming subject and body. */
  function Sent(ms: seq<Message>, user: string, destinatario: string, asunto: string,
                mensaje: string, now: int): seq<Message>
  {
    var a, b := Trim(asunto), Trim(mensaje);
    if destinatario == "" || a == "" || b == "" then ms
    else ms + [Message(now, user, destinatario, a, b, now, false)]
  }

  /**
   * A missing field changes nothing; otherwise the message shows in the sender's sent
   * list and the recipient gains one unread message.
   */
  lemma SentSpec(ms: seq<Message>, user: string, destinatario: string, asunto: string,
                 mensaje: string, now: int)
    ensures destinatario == "" || Blank(asunto) || Blank(mensaje) ==>
      Sent(ms, user, destinatario, asunto, mensaje, now) == ms
    ensures destinatario != "" && !Blank(asunto) && !Blank(mensaje) ==>
      var after := Sent(ms, user, destinatario, asunto, mensaje, now);
      var m := after[|after| - 1];
      after[..|ms|] == ms && |after| == |ms| + 1 &&
      m.remitente == user && !m.leido && m in BoxList(after, user, Enviados) &&
      UnreadCount(after, destinatario) == UnreadCount(ms, destinatario) + 1
  {
    TrimEmpty(asunto);
    TrimEmpty(mensaje);
    if destinatario != "" && !Blank(asunto) && !Blank(mensaje) {
      var m := Message(now, user, destinatario, Trim(asunto), Trim(mensaje), now, false);
      var after := ms + [m];
      FilterSnocKeep(ms, m, UnreadFor(destinatario));
      FilterSnocKeep(ms, m, OwnedBy(user, Enviados));
      BoxListCounts(after, user, Enviados);
      assert m in multiset(BoxList(after, user, Enviados));
    }
  }

  // ---------------------------------------------------------------- opening

  /** `this.mensajes.find(msg => msg.id === v)`, as a position. */
  function FindId(ms: seq<Message>, v: int): (k: Option<nat>)
    ensures k.Some? ==> (k.value < |ms| && ms[k.value].id == v &&
      forall j :: 0 <= j < k.value ==> ms[j].id != v)
    ensures k.None? ==> forall j :: 0 <= j < |ms| ==> ms[j].id != v
    decreases |ms|
  {
    if ms == [] then None
    else if ms[0].id == v then Some(0)
    else
      match FindId(ms[1..], v)
      case None => None
      case Some(k) => Some(k + 1)
  }

  /** The message `verMensaje(id)` opens: `parseInt(id)` must be a number some message has. */
  function Target(ms: seq<Message>, id: string): (k: Option<nat>)
    ensures k.Some? ==> k.value < |ms|
  {
    match ParseInt(id)
    case None => None
    case Some(v) => FindId(ms, v)
  }

  /** Whether opening the message marks it read: it is addressed to the user and unread. */
  predicate Marks(m: Message, user: string) {
    m.destinatario == user && !m.leido
  }

  /** The store after `verMensaje(id)`. */
  function Opened(ms: seq<Message>, user: string, id: string): seq<Message> {
    match Target(ms, id)
    case None => ms
    case Some(k) => if Marks(ms[k], user) then ms[k := ms[k].(leido := true)] else ms
  }

  /** Opening changes at most the `leido` of the message opened, and only to mark it read for its recipient. */
  lemma OpenedSpec(ms: seq<Message>, user: string, id: string)
    ensures |Opened(ms, user, id)| == |ms|
    ensures forall j :: 0 <= j < |ms| && Target(ms, id) != Some(j) ==> Opened(ms, user, id)[j] == ms[j]
    ensures Target(ms, id).Some? ==>
      var k := Target(ms, id).value;
      Opened(ms, user, id)[k] == ms[k].(leido := ms[k].leido || ms[k].destinatario == user)
  {
  }

  /** Opening twice is opening once. */
  lemma OpenedTwice(ms: seq<Message>, user: string, id: string)
    ensures Opened(Opened(ms, user, id), user, id) == Opened(ms, user, id)
  {
    var after := Opened(ms, user, id);
    if Target(ms, id).Some? {
      var k := Target(ms, id).value;
      assert forall j :: 0 <= j < |ms| ==> after[j].id == ms[j].id;
      var v := ParseInt(id).value;
      FindIdSame(ms, after, v);
    }
  }

  lemma {:induction false} FindIdSame(a: seq<Message>, b: seq<Message>, v: int)
    requires |a| == |b| && forall j :: 0 <= j < |a| ==> a[j].id == b[j].id
    ensures FindId(a, v) == FindId(b, v)
    decreases |a|
  {
    if a != [] && a[0].id != v {
      FindIdSame(a[1..], b[1..], v);
    }
  }

  /** Opening lowers the unread count by one exactly when it marks the message read. */
  lemma OpenedUnread(ms: seq<Message>, user: string, id: string)
    ensures UnreadCount(Opened(ms, user, id), user) ==
      UnreadCount(ms, user) - (if Target(ms, id).Some? && Marks(ms[Target(ms, id).value], user) then 1 else 0)
  {
    if Target(ms, id).Some? && Marks(ms[Target(ms, id).value], user) {
      var k := Target(ms, id).value;
      DropUnread(ms, k, ms[k].(leido := true), user);
    }
  }

  lemma {:induction false} DropUnread(s: seq<Message>, k: nat, x: Message, user: string)
    requires k < |s| && UnreadFor(user)(s[k]) && !UnreadFor(user)(x)
    ensures |Filter(s[k := x], UnreadFor(user))| == |Filter(s, UnreadFor(user))| - 1
    decreases |s|
  {
    var p := UnreadFor(user);
    var init, last := s[..|s| - 1], s[|s| - 1];
    var t := s[k := x];
    assert t[..|t| - 1] == (if k < |s| - 1 then init[k := x] else init);
    if k == |s| - 1 {
      assert t == init + [x] && s == init + [last];
      FilterSnocKeep(init, last, p);
      FilterSnocSkip(init, x, p);
    } else {
      assert t == init[k := x] + [last] && s == init + [last];
      DropUnread(init, k, x, user);
    }
  }

  // ---------------------------------------------------------------- the widget

  /** `Mensajeria`: the stored messages, the current user and the unread badge. */
  class Mensajeria {
    var mensajes: seq<Message>
    const usuarioActual: string
    var badge: Option<string>

    constructor(guardados: seq<Message>, usuario: string)
      ensures mensajes == guardados && usuarioActual == usuario
      ensures badge == (if usuario == "" then None else Badge(UnreadCount(guardados, usuario)))
    {
      mensajes := guardados;
      usuarioActual := usuario;
      badge := None;
      new;
      ActualizarContadores();
    }

    /** `actualizarContadores()` */
    method ActualizarContadores()
      modifies this
      ensures mensajes == old(mensajes)
      ensures badge == (if usuarioActual == "" then old(badge) else Badge(UnreadCount(mensajes, usuarioActual)))
    {
      if usuarioActual == "" {
        return;
      }
      var noLeidos := |Filter(mensajes, UnreadFor(usuarioActual))|;
      if noLeidos > 0 {
        badge := Some(if noLeidos > 9 then "9+" else NatToString(noLeidos));
      } else {
        badge := None;
      }
    }

    /** `enviarMensaje`: the form's recipient, subject and body, and the clock reading. */
    method EnviarMensaje(destinatario: string, asunto: string, mensaje: string, now: int) returns (enviado: bool)
      modifies this
      ensures mensajes == Sent(old(mensajes), usuarioActual, destinatario, asunto, mensaje, now)
      ensures enviado <==> mensajes != old(mensajes)
      ensures badge == (if !enviado || usuarioActual == "" then old(badge)
                        else Badge(UnreadCount(mensajes, usuarioActual)))
    {
      var a := Trim(asunto);
      var b := Trim(mensaje);
      if destinatario == "" || a == "" || b == "" {
        return false;
      }
      var nuevo := Message(now, usuarioActual, destinatario, a, b, now, false);
      mensajes := mensajes + [nuevo];
      ActualizarContadores();
      enviado := true;
    }

    /** `verMensaje(id)`: the message opened, if any. */
    method VerMensaje(id: string) returns (abierto: Option<Message>)
      modifies this
      ensures mensajes == Opened(old(mensajes), usuarioActual, id)
      ensures abierto == (match Target(old(mensajes), id)
                          case None => None
                          case Some(k) => Some(mensajes[k]))
      ensures badge == (if Target(old(mensajes), id).Some? &&
                           Marks(old(mensajes)[Target(old(mensajes), id).value], usuarioActual) &&
                           usuarioActual != ""
                        then Badge(UnreadCount(mensajes, usuarioActual)) else old(badge))
    {
      var k := Target(mensajes, id);
      if k.None? {
        return None;
      }
      var m := mensajes[k.value];
      if m.destinatario == usuarioActual && !m.leido {
        mensajes := mensajes[k.value := m.(leido := true)];
        ActualizarContadores();
      }
      abierto := Some(mensajes[k.value]);
    }

    /** The list `mostrarMensajes(tipo)` shows for the search input and the read-state select. */
    method MostrarMensajes(box: Box, search: string, estado: string) returns (lista: seq<Message>)
      ensures lista == Listed(mensajes, usuarioActual, box, search, estado)
    {
      var base := SortByDate(Filter(mensajes, OwnedBy(usuarioActual, box)));
      lista := Filter(base, Shown(box, search, estado));
    }
  }

  // ---------------------------------------------------------------- preview

  /** `recortarTexto(texto, longitud)` */
  function Recortar(texto: string, longitud: nat): (r: string)
    ensures |texto| <= longitud ==> r == texto
    ensures |texto| > longitud ==> |r| == longitud + 3 && r[..longitud] == texto[..longitud] && r[longitud..] == "..."
  {
    if |texto| <= longitud then texto else texto[..longitud] + "..."
  }

  /** A preview of a preview is the same preview. */
  lemma RecortarTwice(texto: string, longitud: nat)
    ensures Recortar(Recortar(texto, longitud), longitud) == Recortar(texto, longitud)
  {
    if |texto| > longitud {
      var r := Recortar(texto, longitud);
      assert r[..longitud] == texto[..longitud];
    }
  }
}
